/**
 * JSON values as json.loads builds them and the two ways the core writes them: the canonical
 * form of library._canonical_bytes (`json.dumps(obj, sort_keys=True, separators=(",", ":"))`,
 * with the default `ensure_ascii`), and the default `json.dumps` the key-wrap payload uses.
 */
module Json {
  import opened Types
  import Utf8

  /** A JSON value; an object is a Python dict from strings to values. */
  datatype Value =
    | JNull
    | JBool(b: bool)
    | JInt(i: int)
    | JString(s: string)
    | JArray(items: seq<Value>)
    | JObject(fields: map<string, Value>)

  type Dict = map<string, Value>

  // ---------------------------------------------------------------------------------------------
  // Python's order on str: lexicographic on code points

  predicate StrLe(a: string, b: string) {
    |a| == 0 || (|b| > 0 && (a[0] < b[0] || (a[0] == b[0] && StrLe(a[1..], b[1..]))))
  }

  predicate StrLt(a: string, b: string) {
    StrLe(a, b) && a != b
  }

  lemma {:induction false} StrLeRefl(a: string)
    ensures StrLe(a, a)
  {
    if |a| > 0 { StrLeRefl(a[1..]); }
  }

  lemma {:induction false} StrLeAntisym(a: string, b: string)
    requires StrLe(a, b) && StrLe(b, a)
    ensures a == b
  {
    if |a| > 0 && |b| > 0 {
      StrLeAntisym(a[1..], b[1..]);
      assert a == [a[0]] + a[1..] && b == [b[0]] + b[1..];
    }
  }

  lemma {:induction false} StrLeTotal(a: string, b: string)
    ensures StrLe(a, b) || StrLe(b, a)
  {
    if |a| > 0 && |b| > 0 && a[0] == b[0] { StrLeTotal(a[1..], b[1..]); }
  }

  lemma {:induction false} StrLeTrans(a: string, b: string, c: string)
    requires StrLe(a, b) && StrLe(b, c)
    ensures StrLe(a, c)
  {
    if |a| > 0 && |b| > 0 && |c| > 0 && a[0] == b[0] && b[0] == c[0] {
      StrLeTrans(a[1..], b[1..], c[1..]);
    }
  }

  predicate StrictlySorted(ks: seq<string>) {
    forall i, j :: 0 <= i < j < |ks| ==> StrLt(ks[i], ks[j])
  }

  predicate IsLeast(k: string, ks: set<string>) {
    k in ks && forall j | j in ks :: StrLe(k, j)
  }

  lemma {:induction false} LeastExists(ks: set<string>)
    requires ks != {}
    ensures exists k :: IsLeast(k, ks)
    decreases ks
  {
    var x :| x in ks;
    StrLeRefl(x);
    if ks == {x} {
      assert IsLeast(x, ks);
    } else {
      LeastExists(ks - {x});
      var k :| IsLeast(k, ks - {x});
      StrLeTotal(x, k);
      if StrLe(x, k) {
        forall j | j in ks ensures StrLe(x, j) {
          if j != x { StrLeTrans(x, k, j); }
        }
        assert IsLeast(x, ks);
      } else {
        assert IsLeast(k, ks);
      }
    }
  }

  lemma LeastUnique(ks: set<string>)
    ensures forall a, b | IsLeast(a, ks) && IsLeast(b, ks) :: a == b
  {
    forall a, b | IsLeast(a, ks) && IsLeast(b, ks) ensures a == b {
      StrLeAntisym(a, b);
    }
  }

  /** The keys of a dict in the order `sort_keys=True` writes them. */
  function SortedKeys(ks: set<string>): (r: seq<string>)
    ensures |r| == |ks|
    ensures forall k :: k in r <==> k in ks
    ensures StrictlySorted(r)
    decreases ks
  {
    if ks == {} then []
    else
      LeastExists(ks);
      LeastUnique(ks);
      var k :| IsLeast(k, ks);
      var rest := SortedKeys(ks - {k});
      assert forall j :: 0 <= j < |rest| ==> StrLt(k, rest[j]) by {
        forall j | 0 <= j < |rest| ensures StrLt(k, rest[j]) {
          assert rest[j] in ks - {k};
        }
      }
      [k] + rest
  }

  /** Any strictly increasing listing of a key set is the one `sort_keys=True` produces. */
  lemma {:induction false} SortedKeysUnique(ks: set<string>, s: seq<string>)
    requires StrictlySorted(s)
    requires forall k :: k in s <==> k in ks
    ensures s == SortedKeys(ks)
    decreases ks
  {
    if ks != {} {
      assert s != [] by { var x :| x in ks; assert x in s; }
      LeastExists(ks);
      LeastUnique(ks);
      var k :| IsLeast(k, ks);
      assert IsLeast(s[0], ks) by {
        forall j | j in ks ensures StrLe(s[0], j) {
          var i :| 0 <= i < |s| && s[i] == j;
          if i == 0 { StrLeRefl(j); }
        }
      }
      assert s[0] == k;
      var t := s[1..];
      assert StrictlySorted(t) by {
        forall i, j | 0 <= i < j < |t| ensures StrLt(t[i], t[j]) {
          assert t[i] == s[i + 1] && t[j] == s[j + 1];
        }
      }
      forall x ensures x in t <==> x in ks - {k} {
        if x in t {
          var i :| 0 <= i < |t| && t[i] == x;
          assert s[i + 1] == x;
          assert StrLt(s[0], s[i + 1]);
        }
        if x in ks - {k} {
          var i :| 0 <= i < |s| && s[i] == x;
          assert i != 0;
          assert t[i - 1] == x;
        }
      }
      SortedKeysUnique(ks - {k}, t);
      assert s == [k] + t;
    }
  }

  // ---------------------------------------------------------------------------------------------
  // String escaping with ensure_ascii

  /** Characters json.dumps writes as themselves: printable ASCII. */
  predicate Printable(s: string) {
    forall i :: 0 <= i < |s| ==> ' ' <= s[i] <= '~'
  }

  function HexDigit(d: int): (c: char)
    requires 0 <= d < 16
  {
    if d < 10 then ('0' as int + d) as char else ('a' as int + (d - 10)) as char
  }

  /** The four lower-case hex digits json.dumps writes after `\u`. */
  function Hex4(n: int): (r: string)
    requires 0 <= n < 0x10000
    ensures |r| == 4 && Printable(r)
  {
    [HexDigit(n / 0x1000), HexDigit(n / 0x100 % 0x10), HexDigit(n / 0x10 % 0x10), HexDigit(n % 0x10)]
  }

  /**
   * One character of a string literal: the two-character escapes, printable ASCII as itself,
   * any other BMP character as `\uXXXX`, and a character above U+FFFF as a UTF-16 surrogate pair.
   */
  function EscapeChar(c: char): (r: string)
    ensures |r| > 0 && Printable(r)
  {
    if c == '"' then "\\\""
    else if c == '\\' then "\\\\"
    else if c == '\n' then "\\n"
    else if c == '\r' then "\\r"
    else if c == '\t' then "\\t"
    else if c == '\U{8}' then "\\b"
    else if c == '\U{C}' then "\\f"
    else if ' ' <= c <= '~' then [c]
    else if c as int < 0x10000 then "\\u" + Hex4(c as int)
    else
      var v := c as int - 0x10000;
      "\\u" + Hex4(0xD800 + v / 0x400) + "\\u" + Hex4(0xDC00 + v % 0x400)
  }

  function Escape(s: string): (r: string)
    ensures Printable(r)
    decreases |s|
  {
    if s == [] then [] else EscapeChar(s[0]) + Escape(s[1..])
  }

  /** A string literal. */
  function Quote(s: string): (r: string)
    ensures Printable(r) && |r| >= 2 && r[0] == '"'
  {
    "\"" + Escape(s) + "\""
  }

  // ---------------------------------------------------------------------------------------------
  // Integers

  predicate IsDigit(c: char) {
    '0' <= c <= '9'
  }

  function DigitChar(d: int): (c: char)
    requires 0 <= d < 10
    ensures IsDigit(c)
  {
    ('0' as int + d) as char
  }

  /** The decimal digits of a natural number, without leading zeros. */
  function NatText(n: nat): (r: string)
    ensures |r| > 0 && (forall i :: 0 <= i < |r| ==> IsDigit(r[i]))
    ensures r[0] == '0' <==> n == 0
    decreases n
  {
    if n < 10 then [DigitChar(n)] else NatText(n / 10) + [DigitChar(n % 10)]
  }

  /** `str(i)` and `json.dumps(i)` of an int. */
  function IntText(i: int): (r: string)
    ensures Printable(r) && |r| > 0 && (r[0] == '-' || IsDigit(r[0]))
  {
    if i < 0 then "-" + NatText(-i) else NatText(i)
  }

  // ---------------------------------------------------------------------------------------------
  // The canonical form

  /** The characters a JSON value can start with in the output of json.dumps. */
  predicate StartsValue(c: char) {
    c == 'n' || c == 't' || c == 'f' || c == '-' || IsDigit(c) || c == '"' || c == '[' || c == '{'
  }

  /**
   * `json.dumps(v, sort_keys=True, separators=(",", ":"))`: no whitespace, object members in
   * code-point order of their keys, and only printable ASCII in the output.
   */
  function Serialize(v: Value): (r: string)
    ensures Printable(r) && |r| > 0 && StartsValue(r[0])
    decreases v, 1
  {
    match v
    case JNull => "null"
    case JBool(b) => if b then "true" else "false"
    case JInt(i) => IntText(i)
    case JString(s) => Quote(s)
    case JArray(xs) => "[" + (if xs == [] then "" else ItemsFrom(v, xs, 0)) + "]"
    case JObject(m) =>
      var ks := SortedKeys(m.Keys);
      "{" + (if ks == [] then "" else MembersFrom(v, m, ks, 0)) + "}"
  }

  /** The items of an array from position `i` on, separated by commas. */
  function ItemsFrom(ghost v: Value, xs: seq<Value>, i: nat): (r: string)
    requires v == JArray(xs) && i < |xs|
    ensures Printable(r) && |r| > 0 && StartsValue(r[0])
    decreases v, 0, |xs| - i
  {
    Serialize(xs[i]) + (if i + 1 < |xs| then "," + ItemsFrom(v, xs, i + 1) else "")
  }

  /** The members of an object for the keys `ks[i..]`, separated by commas. */
  function MembersFrom(ghost v: Value, m: Dict, ks: seq<string>, i: nat): (r: string)
    requires v == JObject(m) && i < |ks| && forall k | k in ks :: k in m
    ensures Printable(r) && |r| > 0 && r[0] == '"'
    decreases v, 0, |ks| - i
  {
    assert m[ks[i]] in m.Values;
    Quote(ks[i]) + ":" + Serialize(m[ks[i]]) + (if i + 1 < |ks| then "," + MembersFrom(v, m, ks, i + 1) else "")
  }

  /** library._canonical_bytes: the canonical text, UTF-8 encoded, which is plain ASCII. */
  function CanonicalBytes(d: Dict): (r: bytes)
    ensures |r| == |Serialize(JObject(d))|
    ensures forall i :: 0 <= i < |r| ==> r[i] == Serialize(JObject(d))[i] as int && 0x20 <= r[i] < 0x7F
  {
    Utf8.Encode(Serialize(JObject(d)))
  }

  // ---------------------------------------------------------------------------------------------
  // The default json.dumps of a dict whose values are strings, in insertion order

  /** `json.dumps(dict(fields))` for string values: separators ", " and ": ", insertion order. */
  function DumpsStrings(fields: seq<(string, string)>): (r: string)
    ensures Printable(r) && |r| >= 2 && r[0] == '{'
  {
    "{" + (if fields == [] then "" else FieldsFrom(fields, 0)) + "}"
  }

  function FieldsFrom(fields: seq<(string, string)>, i: nat): (r: string)
    requires i < |fields|
    ensures Printable(r) && |r| > 0 && r[0] == '"'
    decreases |fields| - i
  {
    Quote(fields[i].0) + ": " + Quote(fields[i].1) + (if i + 1 < |fields| then ", " + FieldsFrom(fields, i + 1) else "")
  }

  /** `dict(fields)`: a later duplicate key overwrites an earlier one. */
  function StringsDict(fields: seq<(string, string)>): Dict
    decreases |fields|
  {
    if fields == [] then map[] else map[fields[0].0 := JString(fields[0].1)] + StringsDict(fields[1..])
  }

  // ---------------------------------------------------------------------------------------------
  // Python operations on JSON values

  /** `d.get(key)`: a missing key and a JSON null both give None. */
  function Get(d: Dict, key: string): (r: Value)
    ensures key !in d ==> r == JNull
  {
    if key in d then d[key] else JNull
  }

  /** `v[key]` on a value json.loads returned. */
  function Subscript(v: Value, key: string): (r: Result<Value>)
    ensures r.Ok? <==> v.JObject? && key in v.fields
    ensures r.Ok? ==> r.value == v.fields[key]
  {
    match v
    case JObject(m) => if key in m then Ok(m[key]) else Err(KeyError(key))
    case _ => Err(TypeError)
  }

  /** Python truthiness: None, False, 0, "" and empty containers are false. */
  predicate Truthy(v: Value) {
    match v
    case JNull => false
    case JBool(b) => b
    case JInt(i) => i != 0
    case JString(s) => s != ""
    case JArray(xs) => xs != []
    case JObject(m) => m != map[]
  }

  /**
   * `str(v)` for the transaction id: None, booleans, ints and strings as Python prints them;
   * an array or object is approximated by its canonical text.
   */
  function PyStr(v: Value): (r: string)
    ensures v.JString? ==> r == v.s
    ensures v.JInt? ==> r == IntText(v.i)
  {
    match v
    case JNull => "None"
    case JBool(b) => if b then "True" else "False"
    case JInt(i) => IntText(i)
    case JString(s) => s
    case _ => Serialize(v)
  }
}
