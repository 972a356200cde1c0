/**
 * json.loads as the core calls it (the C scanner in strict mode), on the values the model can
 * hold, and the round trips of the two json.dumps forms through it.
 */
module JsonParse {
  import opened Types
  import opened Json
  import Utf8

  predicate IsWs(c: char) {
    c == ' ' || c == '\t' || c == '\n' || c == '\r'
  }

  function SkipWs(s: string): (r: string)
    ensures |r| <= |s| && (r == [] || !IsWs(r[0]))
    ensures (s == [] || !IsWs(s[0])) ==> r == s
    decreases |s|
  {
    if |s| > 0 && IsWs(s[0]) then SkipWs(s[1..]) else s
  }

  predicate IsHex(c: char) {
    ('0' <= c <= '9') || ('a' <= c <= 'f') || ('A' <= c <= 'F')
  }

  function HexValue(c: char): (v: int)
    requires IsHex(c)
    ensures 0 <= v < 16
  {
    if '0' <= c <= '9' then c as int - '0' as int
    else if 'a' <= c <= 'f' then c as int - 'a' as int + 10
    else c as int - 'A' as int + 10
  }

  predicate IsHex4(s: string) {
    |s| >= 4 && IsHex(s[0]) && IsHex(s[1]) && IsHex(s[2]) && IsHex(s[3])
  }

  function Hex4Value(s: string): (v: int)
    requires IsHex4(s)
    ensures 0 <= v < 0x10000
  {
    HexValue(s[0]) * 0x1000 + HexValue(s[1]) * 0x100 + HexValue(s[2]) * 0x10 + HexValue(s[3])
  }

  /**
   * The text after `\u`: four hex digits that must not end the input, and after a high
   * surrogate, when more than six characters follow, a `\uXXXX` that may complete the pair.
   * A lone surrogate makes a Python str the model's strings cannot hold.
   */
  function ParseUnicodeEscape(s: string): (r: Result<(char, string)>)
    ensures r.Ok? ==> |r.value.1| < |s|
  {
    if |s| <= 4 || !IsHex4(s) then Err(JsonDecodeError)
    else
      var c := Hex4Value(s);
      var t := s[4..];
      if 0xD800 <= c < 0xDC00 then
        if |t| > 6 && t[0] == '\\' && t[1] == 'u' then
          if !IsHex4(t[2..]) then Err(JsonDecodeError)
          else
            var c2 := Hex4Value(t[2..]);
            if 0xDC00 <= c2 < 0xE000 then Ok(((0x10000 + (c - 0xD800) * 0x400 + (c2 - 0xDC00)) as char, t[6..]))
            else Err(UnmodelledJson)
        else Err(UnmodelledJson)
      else if 0xDC00 <= c < 0xE000 then Err(UnmodelledJson)
      else Ok((c as char, t))
  }

  /** The text after a backslash inside a string literal. */
  function ParseEscape(s: string): (r: Result<(char, string)>)
    ensures r.Ok? ==> |r.value.1| < |s|
  {
    if s == [] then Err(JsonDecodeError)
    else if s[0] == 'u' then ParseUnicodeEscape(s[1..])
    else if s[0] == '"' || s[0] == '\\' || s[0] == '/' then Ok((s[0], s[1..]))
    else if s[0] == 'b' then Ok(('\U{8}', s[1..]))
    else if s[0] == 'f' then Ok(('\U{C}', s[1..]))
    else if s[0] == 'n' then Ok(('\n', s[1..]))
    else if s[0] == 'r' then Ok(('\r', s[1..]))
    else if s[0] == 't' then Ok(('\t', s[1..]))
    else Err(JsonDecodeError)
  }

  function ConsChar(c: char, r: Result<(string, string)>): Result<(string, string)> {
    if r.Ok? then Ok(([c] + r.value.0, r.value.1)) else r
  }

  /** The rest of a string literal after its opening quote; raw control characters are refused. */
  function ParseStringBody(s: string): (r: Result<(string, string)>)
    ensures r.Ok? ==> |r.value.1| < |s|
    decreases |s|
  {
    if s == [] then Err(JsonDecodeError)
    else if s[0] == '"' then Ok(([], s[1..]))
    else if s[0] == '\\' then
      var e :- ParseEscape(s[1..]);
      ConsChar(e.0, ParseStringBody(e.1))
    else if s[0] < ' ' then Err(JsonDecodeError)
    else ConsChar(s[0], ParseStringBody(s[1..]))
  }

  /** The length of the run of digits `s` starts with. */
  function DigitRun(s: string): (n: nat)
    ensures n <= |s| && (forall i :: 0 <= i < n ==> IsDigit(s[i])) && (n < |s| ==> !IsDigit(s[n]))
    decreases |s|
  {
    if |s| > 0 && IsDigit(s[0]) then 1 + DigitRun(s[1..]) else 0
  }

  function DigitsValue(s: string): nat
    requires forall i :: 0 <= i < |s| ==> IsDigit(s[i])
    decreases |s|
  {
    if s == [] then 0
    else
      assert IsDigit(s[|s| - 1]);
      DigitsValue(s[..|s| - 1]) * 10 + (s[|s| - 1] as int - '0' as int)
  }

  /** A '.' followed by a digit: the number is a float. */
  predicate IsFraction(s: string) {
    |s| >= 2 && s[0] == '.' && IsDigit(s[1])
  }

  /** An 'e' or 'E', an optional sign and a digit: the number is a float. */
  predicate IsExponent(s: string) {
    |s| >= 2 && (s[0] == 'e' || s[0] == 'E') &&
    (IsDigit(s[1]) || ((s[1] == '+' || s[1] == '-') && |s| >= 3 && IsDigit(s[2])))
  }

  /** A number: '-'? then '0' or a digit run not starting with '0'; floats are not modelled. */
  function ParseNumber(s: string): (r: Result<(Value, string)>)
    requires |s| > 0
    ensures r.Ok? ==> |r.value.1| < |s|
  {
    var neg := s[0] == '-';
    var t := if neg then s[1..] else s;
    if t == [] || !IsDigit(t[0]) then Err(JsonDecodeError)
    else
      var n := if t[0] == '0' then 1 else DigitRun(t);
      var after := t[n..];
      if IsFraction(after) || IsExponent(after) then Err(UnmodelledJson)
      else
        var m: int := DigitsValue(t[..n]);
        Ok((JInt(if neg then -m else m), after))
  }

  predicate StartsWith(s: string, word: string) {
    |s| >= |word| && s[..|word|] == word
  }

  /**
   * The literal names: null, true and false, and the NaN and Infinity constants json.loads
   * turns into floats. Anything else starting with their first letters is no value.
   */
  function ParseWord(s: string): (r: Result<(Value, string)>)
    requires |s| > 0
    ensures r.Ok? ==> |r.value.1| < |s|
  {
    if StartsWith(s, "null") then Ok((JNull, s[4..]))
    else if StartsWith(s, "true") then Ok((JBool(true), s[4..]))
    else if StartsWith(s, "false") then Ok((JBool(false), s[5..]))
    else if StartsWith(s, "NaN") || StartsWith(s, "Infinity") || StartsWith(s, "-Infinity") then Err(UnmodelledJson)
    else Err(JsonDecodeError)
  }

  /** One JSON value at the start of `s` (no leading whitespace), and the text after it. */
  function ParseValue(s: string): (r: Result<(Value, string)>)
    ensures r.Ok? ==> |r.value.1| < |s|
    decreases |s|, 1
  {
    if s == [] then Err(JsonDecodeError)
    else if s[0] == '"' then
      var p :- ParseStringBody(s[1..]);
      Ok((JString(p.0), p.1))
    else if s[0] == '{' then ParseObject(s[1..])
    else if s[0] == '[' then ParseArray(s[1..])
    else if s[0] == 'n' || s[0] == 't' || s[0] == 'f' || s[0] == 'N' || s[0] == 'I' || (s[0] == '-' && |s| > 1 && s[1] == 'I') then
      ParseWord(s)
    else if s[0] == '-' || IsDigit(s[0]) then ParseNumber(s)
    else Err(JsonDecodeError)
  }

  /** The text after '['. */
  function ParseArray(s: string): (r: Result<(Value, string)>)
    ensures r.Ok? ==> |r.value.1| < |s|
    decreases |s|, 3
  {
    var t := SkipWs(s);
    if |t| > 0 && t[0] == ']' then Ok((JArray([]), t[1..])) else ParseItems(t, [])
  }

  /** Array items from one that starts `s` on, after the items `acc` already read. */
  function ParseItems(s: string, acc: seq<Value>): (r: Result<(Value, string)>)
    ensures r.Ok? ==> |r.value.1| < |s|
    decreases |s|, 2
  {
    var x :- ParseValue(s);
    var t := SkipWs(x.1);
    if |t| > 0 && t[0] == ']' then Ok((JArray(acc + [x.0]), t[1..]))
    else if |t| > 0 && t[0] == ',' then ParseItems(SkipWs(t[1..]), acc + [x.0])
    else Err(JsonDecodeError)
  }

  /** The text after '{'. */
  function ParseObject(s: string): (r: Result<(Value, string)>)
    ensures r.Ok? ==> |r.value.1| < |s|
    decreases |s|, 3
  {
    var t := SkipWs(s);
    if |t| > 0 && t[0] == '}' then Ok((JObject(map[]), t[1..])) else ParseMembers(t, map[])
  }

  /** Object members from one that starts `s` on; a repeated key keeps its last value. */
  function ParseMembers(s: string, acc: Dict): (r: Result<(Value, string)>)
    ensures r.Ok? ==> |r.value.1| < |s|
    decreases |s|, 2
  {
    if |s| == 0 || s[0] != '"' then Err(JsonDecodeError)
    else
      var k :- ParseStringBody(s[1..]);
      var t := SkipWs(k.1);
      if |t| == 0 || t[0] != ':' then Err(JsonDecodeError)
      else
        var x :- ParseValue(SkipWs(t[1..]));
        var u := SkipWs(x.1);
        if |u| > 0 && u[0] == '}' then Ok((JObject(acc[k.0 := x.0]), u[1..]))
        else if |u| > 0 && u[0] == ',' then ParseMembers(SkipWs(u[1..]), acc[k.0 := x.0])
        else Err(JsonDecodeError)
  }

  /** json.loads of a str: no byte-order mark, one value, nothing but whitespace around it. */
  function Loads(text: string): (r: Result<Value>)
    ensures |text| > 0 && text[0] == '\U{FEFF}' ==> r == Err(JsonDecodeError)
    ensures SkipWs(text) == [] ==> r == Err(JsonDecodeError)
  {
    if |text| > 0 && text[0] == '\U{FEFF}' then Err(JsonDecodeError)
    else
      var p :- ParseValue(SkipWs(text));
      if SkipWs(p.1) != [] then Err(JsonDecodeError) else Ok(p.0)
  }

  /**
   * `json.loads(b.decode("utf-8"))`: bytes that are not UTF-8 raise UnicodeDecodeError before
   * any parsing (Utf8.EncodeDecode: the bytes that decode are exactly the encodings of strings).
   */
  function LoadsBytes(b: bytes): (r: Result<Value>)
    ensures Utf8.Decode(b).None? ==> r == Err(UnicodeDecodeError)
  {
    var text := Utf8.Decode(b);
    if text.None? then Err(UnicodeDecodeError) else Loads(text.value)
  }

  // ---------------------------------------------------------------------------------------------
  // Round trips: the parser unfolded one step at a time

  /** Text that may follow a value inside the canonical form. */
  predicate Delimited(rest: string) {
    rest == [] || rest[0] == ',' || rest[0] == ']' || rest[0] == '}'
  }

  lemma ValueString(s: string, str: string, rest: string)
    requires |s| > 0 && s[0] == '"' && ParseStringBody(s[1..]) == Ok((str, rest))
    ensures ParseValue(s) == Ok((JString(str), rest))
  {
  }

  lemma ValueArray(s: string)
    requires |s| > 0 && s[0] == '['
    ensures ParseValue(s) == ParseArray(s[1..])
  {
  }

  lemma ValueObject(s: string)
    requires |s| > 0 && s[0] == '{'
    ensures ParseValue(s) == ParseObject(s[1..])
  {
  }

  lemma ValueDigit(s: string)
    requires |s| > 0 && IsDigit(s[0])
    ensures ParseValue(s) == ParseNumber(s)
  {
    var c := s[0];
    assert c != '"' && c != '{' && c != '[' && c != 'n' && c != 't' && c != 'f' && c != 'N' && c != 'I' && c != '-';
  }

  lemma ValueMinus(s: string)
    requires |s| > 1 && s[0] == '-' && s[1] != 'I'
    ensures ParseValue(s) == ParseNumber(s)
  {
  }

  lemma ArrayEmpty(s: string)
    requires |s| > 0 && s[0] == ']'
    ensures ParseArray(s) == Ok((JArray([]), s[1..]))
  {
  }

  lemma ArrayItems(s: string)
    requires |s| > 0 && StartsValue(s[0])
    ensures ParseArray(s) == ParseItems(s, [])
  {
    assert !IsWs(s[0]) && s[0] != ']';
    assert SkipWs(s) == s;
  }

  lemma ObjectEmpty(s: string)
    requires |s| > 0 && s[0] == '}'
    ensures ParseObject(s) == Ok((JObject(map[]), s[1..]))
  {
  }

  lemma ObjectMembers(s: string)
    requires |s| > 0 && s[0] == '"'
    ensures ParseObject(s) == ParseMembers(s, map[])
  {
  }

  lemma ItemsUnfold(s: string, acc: seq<Value>, x: Value, tail: string)
    requires ParseValue(s) == Ok((x, tail))
    requires |tail| > 0 && (tail[0] == ']' || tail[0] == ',')
    ensures ParseItems(s, acc)
         == if tail[0] == ']' then Ok((JArray(acc + [x]), tail[1..])) else ParseItems(SkipWs(tail[1..]), acc + [x])
  {
  }

  lemma MembersUnfold(s: string, acc: Dict, k: string, afterKey: string, x: Value, tail: string)
    requires |s| > 0 && s[0] == '"'
    requires ParseStringBody(s[1..]) == Ok((k, afterKey))
    requires |afterKey| > 0 && afterKey[0] == ':'
    requires ParseValue(SkipWs(afterKey[1..])) == Ok((x, tail))
    requires |tail| > 0 && (tail[0] == '}' || tail[0] == ',')
    ensures ParseMembers(s, acc)
         == if tail[0] == '}' then Ok((JObject(acc[k := x]), tail[1..])) else ParseMembers(SkipWs(tail[1..]), acc[k := x])
  {
  }

  lemma NumberUnfold(s: string, n: nat)
    requires |s| > 0 && IsDigit(s[0])
    requires n == (if s[0] == '0' then 1 else DigitRun(s))
    requires !IsFraction(s[n..]) && !IsExponent(s[n..])
    ensures ParseNumber(s) == Ok((JInt(DigitsValue(s[..n])), s[n..]))
  {
  }

  lemma NegativeUnfold(s: string, n: nat)
    requires |s| > 1 && s[0] == '-' && IsDigit(s[1])
    requires n == (if s[1] == '0' then 1 else DigitRun(s[1..]))
    requires !IsFraction(s[1..][n..]) && !IsExponent(s[1..][n..])
    ensures ParseNumber(s) == Ok((JInt(-(DigitsValue(s[1..][..n]) as int)), s[1..][n..]))
  {
  }

  lemma UnicodeUnfold(s: string)
    requires |s| > 4 && IsHex4(s) && !(0xD800 <= Hex4Value(s) < 0xE000)
    ensures ParseUnicodeEscape(s) == Ok((Hex4Value(s) as char, s[4..]))
  {
  }

  lemma UnicodePairUnfold(s: string, t: string)
    requires |s| > 4 && IsHex4(s) && 0xD800 <= Hex4Value(s) < 0xDC00 && t == s[4..]
    requires |t| > 6 && t[0] == '\\' && t[1] == 'u' && IsHex4(t[2..]) && 0xDC00 <= Hex4Value(t[2..]) < 0xE000
    ensures ParseUnicodeEscape(s)
         == Ok(((0x10000 + (Hex4Value(s) - 0xD800) * 0x400 + (Hex4Value(t[2..]) - 0xDC00)) as char, t[6..]))
  {
  }

  lemma BodyEscape(s: string, c: char, t: string)
    requires |s| > 0 && s[0] == '\\' && ParseEscape(s[1..]) == Ok((c, t))
    ensures ParseStringBody(s) == ConsChar(c, ParseStringBody(t))
  {
  }

  lemma BodyPlain(s: string)
    requires |s| > 0 && ' ' <= s[0] && s[0] != '"' && s[0] != '\\'
    ensures ParseStringBody(s) == ConsChar(s[0], ParseStringBody(s[1..]))
  {
  }

  // Sequence algebra, stated on plain sequences

  lemma Regroup(a: string, b: string, c: string, d: string)
    ensures a + b + c + d == a + (b + c + d)
  {
  }

  lemma Braced(open: string, inner: string, close: string, rest: string)
    requires |open| == 1
    ensures var s := open + inner + close + rest; |s| > 0 && s[0] == open[0] && s[1..] == inner + close + rest
  {
    assert open + inner + close + rest == open + (inner + close + rest);
  }

  lemma DropHead(a: string, b: string, c: string)
    requires |a| > 0
    ensures (a + b + c)[1..] == a[1..] + b + c
  {
  }

  lemma Regroup5(a: string, b: string, c: string, d: string, e: string)
    ensures a + b + c + d + e == a + (b + (c + d + e))
  {
  }

  lemma EscapeU(w: string)
    ensures var s := "\\u" + w; |s| > 1 && s[0] == '\\' && s[1..][0] == 'u' && s[1..][1..] == w
  {
  }

  lemma EscapeUnicode(s: string)
    requires |s| > 0 && s[0] == 'u'
    ensures ParseEscape(s) == ParseUnicodeEscape(s[1..])
  {
  }

  /** A delimiter between items: after skipping it, the next item starts. */
  lemma SeparatorTail(sep: string, f: string, close: string, rest: string)
    requires sep == "," || sep == ", "
    requires |f| > 0 && StartsValue(f[0])
    ensures var tail := sep + f + close + rest;
      |tail| > 0 && tail[0] == ',' && SkipWs(tail[1..]) == f + close + rest
  {
    var tail := sep + f + close + rest;
    if sep == ", " {
      assert tail[1..] == " " + (f + close + rest);
    } else {
      assert tail[1..] == f + close + rest;
    }
  }

  lemma CloseTail(close: string, rest: string)
    requires |close| == 1
    ensures var tail := "" + close + rest; |tail| > 0 && tail[0] == close[0] && tail[1..] == rest
  {
  }

  lemma QuoteSplit(k: string, after: string)
    ensures (Quote(k) + after)[0] == '"'
    ensures (Quote(k) + after)[1..] == Escape(k) + "\"" + after
  {
  }

  // Escapes

  lemma HexDigitValue(d: int)
    requires 0 <= d < 16
    ensures IsHex(HexDigit(d)) && HexValue(HexDigit(d)) == d
  {
  }

  lemma ParseHex4(n: int, t: string)
    requires 0 <= n < 0x10000
    ensures |Hex4(n) + t| >= 4 && (Hex4(n) + t)[4..] == t
    ensures IsHex4(Hex4(n) + t) && Hex4Value(Hex4(n) + t) == n
  {
    var s := Hex4(n) + t;
    var q1, d := n / 0x10, n % 0x10;
    var q2, c := q1 / 0x10, q1 % 0x10;
    var a, b := q2 / 0x10, q2 % 0x10;
    assert n == 0x10 * q1 + d;
    assert q1 == 0x10 * q2 + c;
    assert q2 == 0x10 * a + b;
    assert n / 0x100 == q2;
    assert n / 0x1000 == a;
    assert s[0] == HexDigit(a) && s[1] == HexDigit(b) && s[2] == HexDigit(c) && s[3] == HexDigit(d);
    HexDigitValue(a);
    HexDigitValue(b);
    HexDigitValue(c);
    HexDigitValue(d);
  }

  lemma ParseShortEscape(c: char, t: string)
    requires c == '"' || c == '\\' || c == '\n' || c == '\r' || c == '\t' || c == '\U{8}' || c == '\U{C}'
    ensures ParseStringBody(EscapeChar(c) + t) == ConsChar(c, ParseStringBody(t))
  {
    var s := EscapeChar(c) + t;
    assert |EscapeChar(c)| == 2 && s[0] == '\\' && s[1..][1..] == t;
    BodyEscape(s, c, t);
  }

  lemma ParsePlainChar(c: char, t: string)
    requires ' ' <= c <= '~' && c != '"' && c != '\\'
    ensures ParseStringBody(EscapeChar(c) + t) == ConsChar(c, ParseStringBody(t))
  {
    var s := EscapeChar(c) + t;
    assert s[0] == c && s[1..] == t;
    BodyPlain(s);
  }

  lemma ParseBmpEscape(c: char, t: string)
    requires |t| > 0 && c as int < 0x10000 && !(' ' <= c <= '~')
    requires c != '\n' && c != '\r' && c != '\t' && c != '\U{8}' && c != '\U{C}'
    ensures ParseStringBody(EscapeChar(c) + t) == ConsChar(c, ParseStringBody(t))
  {
    var h := Hex4(c as int);
    var s := EscapeChar(c) + t;
    BmpShape(c, t);
    EscapeU(h + t);
    EscapeUnicode(s[1..]);
    ParseHex4(c as int, t);
    UnicodeUnfold(h + t);
    BodyEscape(s, c, t);
  }

  /** A BMP character outside printable ASCII is written as `\uXXXX`. */
  lemma BmpShape(c: char, t: string)
    requires c as int < 0x10000 && !(' ' <= c <= '~')
    requires c != '\n' && c != '\r' && c != '\t' && c != '\U{8}' && c != '\U{C}'
    ensures EscapeChar(c) + t == "\\u" + (Hex4(c as int) + t)
  {
    assert EscapeChar(c) == "\\u" + Hex4(c as int);
  }

  /** The UTF-16 halves of a character above U+FFFF recombine to it. */
  lemma SurrogateHalves(c: char)
    requires c as int >= 0x10000
    ensures var v := c as int - 0x10000;
      0xD800 <= 0xD800 + v / 0x400 < 0xDC00 && 0xDC00 <= 0xDC00 + v % 0x400 < 0xE000 &&
      0x10000 + (v / 0x400) * 0x400 + v % 0x400 == c as int
  {
  }

  lemma SurrogateTail(lo: int, t: string)
    requires 0 <= lo < 0x10000 && |t| > 0
    ensures var u := "\\u" + Hex4(lo) + t;
      |u| > 6 && u[0] == '\\' && u[1] == 'u' && u[2..] == Hex4(lo) + t && u[6..] == t
  {
  }

  /** The text of a surrogate-pair escape of `c`, cut the way the parser reads it. */
  lemma AstralShape(c: char, t: string)
    requires |t| > 0 && c as int >= 0x10000
    ensures var v := c as int - 0x10000;
      var hi, lo := 0xD800 + v / 0x400, 0xDC00 + v % 0x400;
      var s := EscapeChar(c) + t;
      0xD800 <= hi < 0xDC00 && 0xDC00 <= lo < 0xE000 &&
      |s| > 1 && s[0] == '\\' && s[1..][0] == 'u' && s[1..][1..] == Hex4(hi) + ("\\u" + Hex4(lo) + t) &&
      (0x10000 + (hi - 0xD800) * 0x400 + (lo - 0xDC00)) as char == c
  {
    var v := c as int - 0x10000;
    SurrogateHalves(c);
    var hi, lo := 0xD800 + v / 0x400, 0xDC00 + v % 0x400;
    AstralText(c, t);
    EscapeU(Hex4(hi) + ("\\u" + Hex4(lo) + t));
  }

  lemma AstralText(c: char, t: string)
    requires c as int >= 0x10000
    ensures var v := c as int - 0x10000;
      EscapeChar(c) + t == "\\u" + (Hex4(0xD800 + v / 0x400) + ("\\u" + Hex4(0xDC00 + v % 0x400) + t))
  {
    var v := c as int - 0x10000;
    var hi, lo := 0xD800 + v / 0x400, 0xDC00 + v % 0x400;
    EscapeAstral(c);
    Regroup5("\\u", Hex4(hi), "\\u", Hex4(lo), t);
  }

  lemma EscapeAstral(c: char)
    requires c as int >= 0x10000
    ensures var v := c as int - 0x10000;
      EscapeChar(c) == "\\u" + Hex4(0xD800 + v / 0x400) + "\\u" + Hex4(0xDC00 + v % 0x400)
  {
  }

  lemma ParseAstralEscape(c: char, t: string)
    requires |t| > 0 && c as int >= 0x10000
    ensures ParseStringBody(EscapeChar(c) + t) == ConsChar(c, ParseStringBody(t))
  {
    AstralShape(c, t);
    var v := c as int - 0x10000;
    var hi, lo := 0xD800 + v / 0x400, 0xDC00 + v % 0x400;
    var s := EscapeChar(c) + t;
    EscapeUnicode(s[1..]);
    AstralPair(hi, lo, "\\u" + Hex4(lo) + t, t);
    BodyEscape(s, c, t);
  }

  lemma AstralPair(hi: int, lo: int, u: string, t: string)
    requires 0xD800 <= hi < 0xDC00 && 0xDC00 <= lo < 0xE000 && |t| > 0 && u == "\\u" + Hex4(lo) + t
    ensures ParseUnicodeEscape(Hex4(hi) + u) == Ok(((0x10000 + (hi - 0xD800) * 0x400 + (lo - 0xDC00)) as char, t))
  {
    ParseHex4(hi, u);
    SurrogateTail(lo, t);
    ParseHex4(lo, t);
    UnicodePairUnfold(Hex4(hi) + u, u);
  }

  lemma ParseEscapeChar(c: char, t: string)
    requires |t| > 0
    ensures ParseStringBody(EscapeChar(c) + t) == ConsChar(c, ParseStringBody(t))
  {
    if c == '"' || c == '\\' || c == '\n' || c == '\r' || c == '\t' || c == '\U{8}' || c == '\U{C}' {
      ParseShortEscape(c, t);
    } else if ' ' <= c <= '~' {
      ParsePlainChar(c, t);
    } else if c as int < 0x10000 {
      ParseBmpEscape(c, t);
    } else {
      ParseAstralEscape(c, t);
    }
  }

  lemma {:induction false} ParseEscaped(s: string, rest: string)
    ensures ParseStringBody(Escape(s) + "\"" + rest) == Ok((s, rest))
    decreases |s|
  {
    if s == [] {
      assert Escape(s) + "\"" + rest == "\"" + rest;
    } else {
      var t := Escape(s[1..]) + "\"" + rest;
      Regroup(EscapeChar(s[0]), Escape(s[1..]), "\"", rest);
      ParseEscapeChar(s[0], t);
      ParseEscaped(s[1..], rest);
      assert [s[0]] + s[1..] == s;
    }
  }

  /** A string literal json.dumps writes reads back as the same string, whatever follows it. */
  lemma ParseQuote(s: string, rest: string)
    ensures ParseValue(Quote(s) + rest) == Ok((JString(s), rest))
  {
    QuoteSplit(s, rest);
    ParseEscaped(s, rest);
    ValueString(Quote(s) + rest, s, rest);
  }

  // Integers

  lemma {:induction false} DigitRunAppend(d: string, r: string)
    requires forall i :: 0 <= i < |d| ==> IsDigit(d[i])
    ensures DigitRun(d + r) == |d| + DigitRun(r)
    decreases |d|
  {
    if d != [] {
      assert (d + r)[0] == d[0] && (d + r)[1..] == d[1..] + r;
      assert IsDigit(d[0]);
      DigitRunAppend(d[1..], r);
      assert DigitRun(d + r) == 1 + DigitRun(d[1..] + r);
    } else {
      assert d + r == r;
    }
  }

  lemma {:induction false} DigitsValueNatText(n: nat)
    ensures DigitsValue(NatText(n)) == n
    decreases n
  {
    if n >= 10 {
      var d := NatText(n);
      assert d[..|d| - 1] == NatText(n / 10);
      DigitsValueNatText(n / 10);
    }
  }

  /** A run of digits followed by a delimiter: the parser reads exactly that run. */
  lemma DigitsSpan(d: string, rest: string)
    requires |d| > 0 && (forall i :: 0 <= i < |d| ==> IsDigit(d[i])) && (d[0] == '0' ==> |d| == 1)
    requires Delimited(rest)
    ensures var s := d + rest;
      |s| > 0 && IsDigit(s[0]) && (if s[0] == '0' then 1 else DigitRun(s)) == |d| &&
      s[..|d|] == d && s[|d|..] == rest && !IsFraction(s[|d|..]) && !IsExponent(s[|d|..])
  {
    DigitRunAppend(d, rest);
    assert (d + rest)[..|d|] == d && (d + rest)[|d|..] == rest;
  }

  lemma NatTextShape(n: nat)
    ensures var d := NatText(n);
      |d| > 0 && (forall i :: 0 <= i < |d| ==> IsDigit(d[i])) && (d[0] == '0' ==> |d| == 1) && DigitsValue(d) == n
  {
    DigitsValueNatText(n);
  }

  lemma ParseDigits(d: string, rest: string)
    requires |d| > 0 && (forall i :: 0 <= i < |d| ==> IsDigit(d[i])) && (d[0] == '0' ==> |d| == 1)
    requires Delimited(rest)
    ensures ParseValue(d + rest) == Ok((JInt(DigitsValue(d)), rest))
  {
    DigitsSpan(d, rest);
    NumberUnfold(d + rest, |d|);
    ValueDigit(d + rest);
  }

  lemma MinusNumber(d: string, rest: string)
    requires |d| > 0 && (forall i :: 0 <= i < |d| ==> IsDigit(d[i])) && (d[0] == '0' ==> |d| == 1)
    requires Delimited(rest)
    ensures ParseNumber("-" + d + rest) == Ok((JInt(-(DigitsValue(d) as int)), rest))
  {
    var u := d + rest;
    var s := "-" + u;
    assert "-" + d + rest == s;
    assert s[1..] == u;
    DigitsSpan(d, rest);
    NegativeParts(s, u, d, rest);
  }

  lemma NegativeParts(s: string, u: string, d: string, rest: string)
    requires |s| > 1 && s[0] == '-' && s[1..] == u && |u| > 0 && IsDigit(u[0])
    requires (forall i :: 0 <= i < |d| ==> IsDigit(d[i])) && (if u[0] == '0' then 1 else DigitRun(u)) == |d|
    requires u[..|d|] == d && u[|d|..] == rest && !IsFraction(rest) && !IsExponent(rest)
    ensures ParseNumber(s) == Ok((JInt(-(DigitsValue(d) as int)), rest))
  {
    assert s[1] == u[0];
    NegativeUnfold(s, |d|);
  }

  lemma ParseMinusDigits(d: string, rest: string)
    requires |d| > 0 && (forall i :: 0 <= i < |d| ==> IsDigit(d[i])) && (d[0] == '0' ==> |d| == 1)
    requires Delimited(rest)
    ensures ParseValue("-" + d + rest) == Ok((JInt(-(DigitsValue(d) as int)), rest))
  {
    var s := "-" + d + rest;
    assert |s| > 1 && s[0] == '-' && s[1] == d[0];
    MinusNumber(d, rest);
    ValueMinus(s);
  }

  lemma ParseNatText(n: nat, rest: string)
    requires Delimited(rest)
    ensures ParseValue(NatText(n) + rest) == Ok((JInt(n), rest))
  {
    NatTextShape(n);
    ParseDigits(NatText(n), rest);
  }

  lemma ParseNegative(n: nat, rest: string)
    requires n > 0 && Delimited(rest)
    ensures ParseValue("-" + NatText(n) + rest) == Ok((JInt(-(n as int)), rest))
  {
    NatTextShape(n);
    ParseMinusDigits(NatText(n), rest);
  }

  lemma ParseIntText(i: int, rest: string)
    requires Delimited(rest)
    ensures ParseValue(IntText(i) + rest) == Ok((JInt(i), rest))
  {
    if i < 0 {
      ParseNegative(-i, rest);
    } else {
      ParseNatText(i, rest);
    }
  }

  // Arrays and objects

  /** The members of `m` for the keys `ks`. */
  function Restrict(m: Dict, ks: seq<string>): Dict {
    map k | k in ks && k in m :: m[k]
  }

  lemma RestrictStep(acc: Dict, m: Dict, ks: seq<string>, i: nat)
    requires i < |ks| && ks[i] in m
    ensures acc[ks[i] := m[ks[i]]] + Restrict(m, ks[i + 1..]) == acc + Restrict(m, ks[i..])
  {
    assert ks[i..] == [ks[i]] + ks[i + 1..];
  }

  lemma RestrictAll(m: Dict, ks: seq<string>)
    requires forall k :: k in ks <==> k in m
    ensures map[] + Restrict(m, ks) == m
  {
  }

  lemma SepSkip(sep: string, text: string)
    requires sep == ":" || sep == ": "
    requires |text| > 0 && StartsValue(text[0])
    ensures |sep + text| > 0 && (sep + text)[0] == ':' && SkipWs((sep + text)[1..]) == text
  {
    if sep == ": " {
      assert (sep + text)[1..] == " " + text;
    } else {
      assert (sep + text)[1..] == text;
    }
  }

  /** One object member, written with the key separator `sep`, followed by its delimiter. */
  lemma MemberStep(k: string, sep: string, text: string, x: Value, tail: string, acc: Dict)
    requires sep == ":" || sep == ": "
    requires |text| > 0 && StartsValue(text[0])
    requires ParseValue(text + tail) == Ok((x, tail))
    requires |tail| > 0 && (tail[0] == '}' || tail[0] == ',')
    ensures ParseMembers(Quote(k) + (sep + (text + tail)), acc)
         == if tail[0] == '}' then Ok((JObject(acc[k := x]), tail[1..])) else ParseMembers(SkipWs(tail[1..]), acc[k := x])
  {
    var afterKey := sep + (text + tail);
    SepSkip(sep, text + tail);
    QuoteSplit(k, afterKey);
    ParseEscaped(k, afterKey);
    MembersUnfold(Quote(k) + afterKey, acc, k, afterKey, x, tail);
  }

  lemma ParseLiteral(v: Value, rest: string)
    requires v.JNull? || v.JBool?
    ensures ParseValue(Serialize(v) + rest) == Ok((v, rest))
  {
    var s := Serialize(v) + rest;
    if v.JNull? {
      assert s[..4] == "null" && s[4..] == rest;
    } else if v.b {
      assert s[..4] == "true" && s[4..] == rest;
    } else {
      assert s[..5] == "false" && s[5..] == rest;
    }
  }

  lemma {:induction false} ParseSerialized(v: Value, rest: string)
    requires Delimited(rest)
    ensures ParseValue(Serialize(v) + rest) == Ok((v, rest))
    decreases v, 2
  {
    match v
    case JNull => ParseLiteral(v, rest);
    case JBool(_) => ParseLiteral(v, rest);
    case JInt(i) => ParseIntText(i, rest);
    case JString(str) => ParseQuote(str, rest);
    case JArray(xs) => ParseSerializedArray(v, xs, rest);
    case JObject(m) => ParseSerializedObject(v, m, rest);
  }

  /** What follows item `i` of an array in its canonical text. */
  function ItemsRest(v: Value, xs: seq<Value>, i: nat, rest: string): string
    requires v == JArray(xs) && i < |xs|
  {
    (if i + 1 < |xs| then "," + ItemsFrom(v, xs, i + 1) else "") + "]" + rest
  }

  lemma ItemsShape(v: Value, xs: seq<Value>, i: nat, rest: string)
    requires v == JArray(xs) && i < |xs| && Delimited(rest)
    ensures var tail := ItemsRest(v, xs, i, rest);
      ItemsFrom(v, xs, i) + "]" + rest == Serialize(xs[i]) + tail &&
      Delimited(tail) && |tail| > 0 && (tail[0] == ']' || tail[0] == ',') &&
      (tail[0] == ']' <==> i + 1 == |xs|) &&
      (i + 1 == |xs| ==> tail[1..] == rest && xs[..i] + [xs[i]] == xs) &&
      (i + 1 < |xs| ==> SkipWs(tail[1..]) == ItemsFrom(v, xs, i + 1) + "]" + rest && xs[..i] + [xs[i]] == xs[..i + 1])
  {
    var more := if i + 1 < |xs| then "," + ItemsFrom(v, xs, i + 1) else "";
    Regroup(Serialize(xs[i]), more, "]", rest);
    if i + 1 < |xs| {
      SeparatorTail(",", ItemsFrom(v, xs, i + 1), "]", rest);
      assert xs[..i] + [xs[i]] == xs[..i + 1];
    } else {
      CloseTail("]", rest);
      assert xs[..i] + [xs[i]] == xs;
    }
  }

  lemma {:induction false} ParseItemsFrom(v: Value, xs: seq<Value>, i: nat, rest: string)
    requires v == JArray(xs) && i < |xs| && Delimited(rest)
    ensures ParseItems(ItemsFrom(v, xs, i) + "]" + rest, xs[..i]) == Ok((v, rest))
    decreases v, 0, |xs| - i
  {
    ItemsShape(v, xs, i, rest);
    var tail := ItemsRest(v, xs, i, rest);
    ParseSerialized(xs[i], tail);
    ItemsUnfold(Serialize(xs[i]) + tail, xs[..i], xs[i], tail);
    if i + 1 < |xs| {
      ParseItemsFrom(v, xs, i + 1, rest);
    }
  }

  /** What follows member `i` of an object in its canonical text. */
  function MembersRest(v: Value, m: Dict, ks: seq<string>, i: nat, rest: string): string
    requires v == JObject(m) && ks == SortedKeys(m.Keys) && i < |ks|
  {
    (if i + 1 < |ks| then "," + MembersFrom(v, m, ks, i + 1) else "") + "}" + rest
  }

  lemma MembersShape(v: Value, m: Dict, ks: seq<string>, i: nat, acc: Dict, rest: string)
    requires v == JObject(m) && ks == SortedKeys(m.Keys) && i < |ks| && Delimited(rest)
    ensures var k, tail := ks[i], MembersRest(v, m, ks, i, rest);
      k in m && m[k] in m.Values &&
      MembersFrom(v, m, ks, i) + "}" + rest == Quote(k) + (":" + (Serialize(m[k]) + tail)) &&
      Delimited(tail) && |tail| > 0 && (tail[0] == '}' || tail[0] == ',') &&
      (tail[0] == '}' <==> i + 1 == |ks|) &&
      acc[k := m[k]] + Restrict(m, ks[i + 1..]) == acc + Restrict(m, ks[i..]) &&
      (i + 1 == |ks| ==> tail[1..] == rest && acc[k := m[k]] == acc + Restrict(m, ks[i..])) &&
      (i + 1 < |ks| ==> SkipWs(tail[1..]) == MembersFrom(v, m, ks, i + 1) + "}" + rest)
  {
    var k := ks[i];
    assert m[k] in m.Values;
    var more := if i + 1 < |ks| then "," + MembersFrom(v, m, ks, i + 1) else "";
    MembersRegroup(Quote(k), Serialize(m[k]), more, "}", rest);
    RestrictStep(acc, m, ks, i);
    if i + 1 < |ks| {
      SeparatorTail(",", MembersFrom(v, m, ks, i + 1), "}", rest);
    } else {
      CloseTail("}", rest);
      assert Restrict(m, ks[i + 1..]) == map[];
    }
  }

  lemma {:induction false} ParseMembersFrom(v: Value, m: Dict, ks: seq<string>, i: nat, acc: Dict, rest: string)
    requires v == JObject(m) && ks == SortedKeys(m.Keys) && i < |ks| && Delimited(rest)
    ensures ParseMembers(MembersFrom(v, m, ks, i) + "}" + rest, acc) == Ok((JObject(acc + Restrict(m, ks[i..])), rest))
    decreases v, 0, |ks| - i
  {
    MembersShape(v, m, ks, i, acc, rest);
    var k, tail := ks[i], MembersRest(v, m, ks, i, rest);
    ParseSerialized(m[k], tail);
    MemberStep(k, ":", Serialize(m[k]), m[k], tail, acc);
    if i + 1 < |ks| {
      ParseMembersFrom(v, m, ks, i + 1, acc[k := m[k]], rest);
    }
  }

  lemma ArrayShape(v: Value, xs: seq<Value>, rest: string)
    requires v == JArray(xs)
    ensures var s := Serialize(v) + rest;
      |s| > 0 && s[0] == '[' &&
      (xs == [] ==> |s[1..]| > 0 && s[1..][0] == ']' && s[1..][1..] == rest) &&
      (xs != [] ==> s[1..] == ItemsFrom(v, xs, 0) + "]" + rest && StartsValue(s[1..][0]) && xs[..0] == [])
  {
    if xs != [] {
      DropHead("[" + ItemsFrom(v, xs, 0), "]", rest);
    }
  }

  lemma {:induction false} ParseSerializedArray(v: Value, xs: seq<Value>, rest: string)
    requires v == JArray(xs) && Delimited(rest)
    ensures ParseValue(Serialize(v) + rest) == Ok((v, rest))
    decreases v, 1
  {
    ArrayShape(v, xs, rest);
    var s := Serialize(v) + rest;
    ValueArray(s);
    if xs == [] {
      ArrayEmpty(s[1..]);
    } else {
      ArrayItems(s[1..]);
      ParseItemsFrom(v, xs, 0, rest);
    }
  }

  lemma ObjectShape(v: Value, m: Dict, rest: string)
    requires v == JObject(m)
    ensures var s, ks := Serialize(v) + rest, SortedKeys(m.Keys);
      |s| > 0 && s[0] == '{' &&
      (ks == [] ==> |s[1..]| > 0 && s[1..][0] == '}' && s[1..][1..] == rest && m == map[]) &&
      (ks != [] ==> s[1..] == MembersFrom(v, m, ks, 0) + "}" + rest && s[1..][0] == '"' &&
                    map[] + Restrict(m, ks[0..]) == m)
  {
    var ks := SortedKeys(m.Keys);
    var inner := if ks == [] then "" else MembersFrom(v, m, ks, 0);
    assert Serialize(v) == "{" + inner + "}";
    Braced("{", inner, "}", rest);
    if ks != [] {
      assert ks[0..] == ks;
      RestrictAll(m, ks);
    } else {
      assert m.Keys == {};
    }
  }

  lemma {:induction false} ParseSerializedObject(v: Value, m: Dict, rest: string)
    requires v == JObject(m) && Delimited(rest)
    ensures ParseValue(Serialize(v) + rest) == Ok((v, rest))
    decreases v, 1
  {
    ObjectShape(v, m, rest);
    var s, ks := Serialize(v) + rest, SortedKeys(m.Keys);
    ValueObject(s);
    if ks == [] {
      ObjectEmpty(s[1..]);
    } else {
      ObjectMembers(s[1..]);
      ParseMembersFrom(v, m, ks, 0, map[], rest);
    }
  }

  lemma MembersRegroup(q: string, text: string, more: string, close: string, rest: string)
    ensures q + ":" + text + more + close + rest == q + (":" + (text + (more + close + rest)))
  {
  }

  lemma LoadsUnfold(s: string, v: Value)
    requires |s| > 0 && s[0] != '\U{FEFF}' && SkipWs(s) == s
    requires ParseValue(s) == Ok((v, []))
    ensures Loads(s) == Ok(v)
  {
  }

  lemma StartsPlain(s: string)
    requires |s| > 0 && StartsValue(s[0])
    ensures s[0] != '\U{FEFF}' && SkipWs(s) == s
  {
  }

  /** json.loads reads the canonical text of any value back as that value. */
  lemma LoadsSerialize(v: Value)
    ensures Loads(Serialize(v)) == Ok(v)
  {
    assert Serialize(v) + [] == Serialize(v);
    StartsPlain(Serialize(v));
    ParseSerialized(v, []);
    LoadsUnfold(Serialize(v), v);
  }

  /** `str` of an int is injective: distinct ints have distinct decimal texts. */
  lemma IntTextInjective(i: int, j: int)
    ensures PyStr(JInt(i)) == PyStr(JInt(j)) ==> i == j
  {
    LoadsSerialize(JInt(i));
    LoadsSerialize(JInt(j));
  }

  /** Decoding UTF-8 text encoded by `str.encode("utf-8")` gives back the text json.loads reads. */
  lemma LoadsBytesEncode(text: string)
    ensures LoadsBytes(Utf8.Encode(text)) == Loads(text)
  {
    Utf8.DecodeEncode(text);
  }

  /** `json.loads(_canonical_bytes(d).decode("utf-8"))` gives back `d`. */
  lemma LoadsCanonicalBytes(d: Dict)
    ensures LoadsBytes(CanonicalBytes(d)) == Ok(JObject(d))
  {
    Utf8.DecodeEncode(Serialize(JObject(d)));
    LoadsSerialize(JObject(d));
  }

  /** Distinct dicts have distinct canonical bytes, so a hash of them binds the whole dict. */
  lemma CanonicalBytesInjective(d: Dict, e: Dict)
    ensures CanonicalBytes(d) == CanonicalBytes(e) ==> d == e
  {
    LoadsCanonicalBytes(d);
    LoadsCanonicalBytes(e);
  }

  // The default json.dumps of string fields

  lemma StringsDictStep(fields: seq<(string, string)>, i: nat, acc: Dict)
    requires i < |fields|
    ensures acc[fields[i].0 := JString(fields[i].1)] + StringsDict(fields[i + 1..]) == acc + StringsDict(fields[i..])
  {
    assert fields[i..][1..] == fields[i + 1..];
  }

  lemma FieldsRegroup(q: string, text: string, more: string, close: string, rest: string)
    ensures q + ": " + text + more + close + rest == q + (": " + (text + (more + close + rest)))
  {
  }

  /** What follows field `i` of a default json.dumps. */
  function FieldsRest(fields: seq<(string, string)>, i: nat, rest: string): string
    requires i < |fields|
  {
    (if i + 1 < |fields| then ", " + FieldsFrom(fields, i + 1) else "") + "}" + rest
  }

  lemma FieldsShape(fields: seq<(string, string)>, i: nat, acc: Dict, rest: string)
    requires i < |fields| && Delimited(rest)
    ensures var k, x, tail := fields[i].0, fields[i].1, FieldsRest(fields, i, rest);
      FieldsFrom(fields, i) + "}" + rest == Quote(k) + (": " + (Quote(x) + tail)) &&
      |Quote(x)| > 0 && StartsValue(Quote(x)[0]) &&
      Delimited(tail) && |tail| > 0 && (tail[0] == '}' || tail[0] == ',') &&
      (tail[0] == '}' <==> i + 1 == |fields|) &&
      (i + 1 == |fields| ==> tail[1..] == rest && acc[k := JString(x)] == acc + StringsDict(fields[i..])) &&
      (i + 1 < |fields| ==> SkipWs(tail[1..]) == FieldsFrom(fields, i + 1) + "}" + rest &&
                            acc[k := JString(x)] + StringsDict(fields[i + 1..]) == acc + StringsDict(fields[i..]))
  {
    var (k, x) := fields[i];
    var more := if i + 1 < |fields| then ", " + FieldsFrom(fields, i + 1) else "";
    FieldsRegroup(Quote(k), Quote(x), more, "}", rest);
    StringsDictStep(fields, i, acc);
    if i + 1 < |fields| {
      SeparatorTail(", ", FieldsFrom(fields, i + 1), "}", rest);
    } else {
      CloseTail("}", rest);
      assert fields[i + 1..] == [];
    }
  }

  lemma {:induction false} ParseFieldsFrom(fields: seq<(string, string)>, i: nat, acc: Dict, rest: string)
    requires i < |fields| && Delimited(rest)
    ensures ParseMembers(FieldsFrom(fields, i) + "}" + rest, acc) == Ok((JObject(acc + StringsDict(fields[i..])), rest))
    decreases |fields| - i
  {
    FieldsShape(fields, i, acc, rest);
    var k, x, tail := fields[i].0, fields[i].1, FieldsRest(fields, i, rest);
    ParseQuote(x, tail);
    MemberStep(k, ": ", Quote(x), JString(x), tail, acc);
    if i + 1 < |fields| {
      ParseFieldsFrom(fields, i + 1, acc[k := JString(x)], rest);
    }
  }

  lemma DumpsShape(fields: seq<(string, string)>)
    ensures var s := DumpsStrings(fields);
      |s| > 0 && s[0] == '{' && s[0] != '\U{FEFF}' && SkipWs(s) == s &&
      (fields == [] ==> |s[1..]| > 0 && s[1..][0] == '}' && s[1..][1..] == [] && StringsDict(fields) == map[]) &&
      (fields != [] ==> s[1..] == FieldsFrom(fields, 0) + "}" + [] && s[1..][0] == '"' &&
                        map[] + StringsDict(fields[0..]) == StringsDict(fields))
  {
    var inner := if fields == [] then "" else FieldsFrom(fields, 0);
    assert DumpsStrings(fields) == "{" + inner + "}" + [];
    Braced("{", inner, "}", []);
    if fields != [] {
      assert fields[0..] == fields;
    }
  }

  /** json.loads reads a default json.dumps of string fields back as the dict of those fields. */
  lemma LoadsDumpsStrings(fields: seq<(string, string)>)
    ensures Loads(DumpsStrings(fields)) == Ok(JObject(StringsDict(fields)))
  {
    DumpsShape(fields);
    var s := DumpsStrings(fields);
    ValueObject(s);
    if fields == [] {
      ObjectEmpty(s[1..]);
    } else {
      ObjectMembers(s[1..]);
      ParseFieldsFrom(fields, 0, map[], []);
    }
    LoadsUnfold(s, JObject(StringsDict(fields)));
  }
}
