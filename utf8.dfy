/**
 * UTF-8 as `str.encode("utf-8")` and the strict `bytes.decode("utf-8")` use it (RFC 3629):
 * no overlong forms, no encoded surrogates, nothing above U+10FFFF.
 */
module Utf8 {
  import opened Types

  /** The one to four bytes of a code point. */
  function EncodeChar(c: char): (r: bytes)
    ensures 1 <= |r| <= 4
  {
    var n := c as int;
    if n < 0x80 then [n]
    else if n < 0x800 then [0xC0 + n / 0x40, 0x80 + n % 0x40]
    else if n < 0x10000 then [0xE0 + n / 0x1000, 0x80 + n / 0x40 % 0x40, 0x80 + n % 0x40]
    else [0xF0 + n / 0x40000, 0x80 + n / 0x1000 % 0x40, 0x80 + n / 0x40 % 0x40, 0x80 + n % 0x40]
  }

  predicate IsAscii(s: string) {
    forall i :: 0 <= i < |s| ==> s[i] as int < 0x80
  }

  /** `str.encode("utf-8")`; on ASCII text it is the sequence of character codes. */
  function Encode(s: string): (r: bytes)
    ensures IsAscii(s) ==> |r| == |s| && forall i :: 0 <= i < |s| ==> r[i] == s[i] as int
    decreases |s|
  {
    if s == [] then [] else EncodeChar(s[0]) + Encode(s[1..])
  }

  /** The length a lead byte announces; 0 for a byte that cannot start a sequence. */
  function SequenceLength(b: byte): int {
    if b < 0x80 then 1
    else if 0xC2 <= b <= 0xDF then 2
    else if 0xE0 <= b <= 0xEF then 3
    else if 0xF0 <= b <= 0xF4 then 4
    else 0
  }

  predicate IsContinuation(b: byte) {
    0x80 <= b < 0xC0
  }

  /** The code point of one sequence whose length its lead byte announces, if it is well formed. */
  function DecodeSequence(b: bytes): Option<char>
    requires 1 <= |b| <= 4 && SequenceLength(b[0]) == |b|
  {
    if |b| == 1 then Some(b[0] as char)
    else if !IsContinuation(b[1]) then None
    else if |b| == 2 then Some(((b[0] as int - 0xC0) * 0x40 + (b[1] as int - 0x80)) as char)
    else if !IsContinuation(b[2]) then None
    else if |b| == 3 then
      var n := (b[0] as int - 0xE0) * 0x1000 + (b[1] as int - 0x80) * 0x40 + (b[2] as int - 0x80);
      if n < 0x800 || (0xD800 <= n < 0xE000) then None else Some(n as char)
    else if !IsContinuation(b[3]) then None
    else
      var n := (b[0] as int - 0xF0) * 0x40000 + (b[1] as int - 0x80) * 0x1000 + (b[2] as int - 0x80) * 0x40 + (b[3] as int - 0x80);
      if n < 0x10000 || n >= 0x110000 then None else Some(n as char)
  }

  function PrependChar(c: char, r: Option<string>): Option<string> {
    if r.Some? then Some([c] + r.value) else None
  }

  /** The strict `bytes.decode("utf-8")`; None stands for UnicodeDecodeError. */
  function Decode(b: bytes): Option<string>
    decreases |b|
  {
    if b == [] then Some([])
    else
      var n := SequenceLength(b[0]);
      if n == 0 || |b| < n then None
      else
        var c := DecodeSequence(b[..n]);
        if c.None? then None else PrependChar(c.value, Decode(b[n..]))
  }

  lemma DecodeLeading(e: bytes, c: char, t: bytes)
    requires 1 <= |e| <= 4 && SequenceLength(e[0]) == |e| && DecodeSequence(e) == Some(c)
    ensures Decode(e + t) == PrependChar(c, Decode(t))
  {
    var b := e + t;
    assert b[..|e|] == e && b[|e|..] == t;
  }

  lemma DecodeSequence2(n: int)
    requires 0x80 <= n < 0x800
    ensures DecodeSequence([0xC0 + n / 0x40, 0x80 + n % 0x40]) == Some(n as char)
  {
  }

  lemma DecodeSequence3(n: int)
    requires 0x800 <= n < 0x10000 && !(0xD800 <= n < 0xE000)
    ensures DecodeSequence([0xE0 + n / 0x1000, 0x80 + n / 0x40 % 0x40, 0x80 + n % 0x40]) == Some(n as char)
  {
    assert n / 0x1000 * 0x1000 + n / 0x40 % 0x40 * 0x40 + n % 0x40 == n;
  }

  lemma DecodeSequence4(n: int)
    requires 0x10000 <= n < 0x110000
    ensures DecodeSequence([0xF0 + n / 0x40000, 0x80 + n / 0x1000 % 0x40, 0x80 + n / 0x40 % 0x40, 0x80 + n % 0x40]) == Some(n as char)
  {
    assert n / 0x40000 * 0x40000 + n / 0x1000 % 0x40 * 0x1000 + n / 0x40 % 0x40 * 0x40 + n % 0x40 == n;
  }

  lemma DecodeEncodeChar(c: char, t: bytes)
    ensures Decode(EncodeChar(c) + t) == PrependChar(c, Decode(t))
  {
    var n := c as int;
    if n < 0x80 {
    } else if n < 0x800 {
      DecodeSequence2(n);
    } else if n < 0x10000 {
      DecodeSequence3(n);
    } else {
      DecodeSequence4(n);
    }
    DecodeLeading(EncodeChar(c), c, t);
  }

  /** Six low bits split off and joined again. */
  lemma Split6(hi: int, lo: int)
    requires 0 <= hi && 0 <= lo < 0x40
    ensures (hi * 0x40 + lo) / 0x40 == hi && (hi * 0x40 + lo) % 0x40 == lo
  {
  }

  lemma EncodeSequence2(e: bytes)
    requires |e| == 2 && SequenceLength(e[0]) == 2 && DecodeSequence(e).Some?
    ensures EncodeChar(DecodeSequence(e).value) == e
  {
    Split6(e[0] as int - 0xC0, e[1] as int - 0x80);
  }

  lemma EncodeSequence3(e: bytes)
    requires |e| == 3 && SequenceLength(e[0]) == 3 && DecodeSequence(e).Some?
    ensures EncodeChar(DecodeSequence(e).value) == e
  {
    var a, b, c := e[0] as int - 0xE0, e[1] as int - 0x80, e[2] as int - 0x80;
    var n := DecodeSequence(e).value as int;
    assert n == (a * 0x40 + b) * 0x40 + c;
    Split6(a * 0x40 + b, c);
    Split6(a, b);
    assert n / 0x1000 == (n / 0x40) / 0x40;
  }

  lemma EncodeSequence4(e: bytes)
    requires |e| == 4 && SequenceLength(e[0]) == 4 && DecodeSequence(e).Some?
    ensures EncodeChar(DecodeSequence(e).value) == e
  {
    var a, b, c, d := e[0] as int - 0xF0, e[1] as int - 0x80, e[2] as int - 0x80, e[3] as int - 0x80;
    var n := DecodeSequence(e).value as int;
    assert n == ((a * 0x40 + b) * 0x40 + c) * 0x40 + d;
    Split6((a * 0x40 + b) * 0x40 + c, d);
    Split6(a * 0x40 + b, c);
    Split6(a, b);
    Split12(a * 0x40 + b, c * 0x40 + d);
    Split18(a, b * 0x1000 + c * 0x40 + d);
  }

  lemma Split12(hi: int, lo: int)
    requires 0 <= hi && 0 <= lo < 0x1000
    ensures (hi * 0x1000 + lo) / 0x1000 == hi
  {
  }

  lemma Split18(hi: int, lo: int)
    requires 0 <= hi && 0 <= lo < 0x40000
    ensures (hi * 0x40000 + lo) / 0x40000 == hi
  {
  }

  /** A well-formed sequence is the encoding of the code point it decodes to. */
  lemma EncodeDecodeSequence(e: bytes)
    requires 1 <= |e| <= 4 && SequenceLength(e[0]) == |e| && DecodeSequence(e).Some?
    ensures EncodeChar(DecodeSequence(e).value) == e
  {
    if |e| == 2 {
      EncodeSequence2(e);
    } else if |e| == 3 {
      EncodeSequence3(e);
    } else if |e| == 4 {
      EncodeSequence4(e);
    }
  }

  /**
   * The strict decoder accepts only the encodings `str.encode` produces: whatever it decodes
   * encodes back to the same bytes. With DecodeEncode, the two are inverse bijections.
   */
  lemma {:induction false} EncodeDecode(b: bytes)
    requires Decode(b).Some?
    ensures Encode(Decode(b).value) == b
    decreases |b|
  {
    if b != [] {
      var n := SequenceLength(b[0]);
      var c := DecodeSequence(b[..n]).value;
      var rest := Decode(b[n..]).value;
      EncodeDecodeSequence(b[..n]);
      EncodeDecode(b[n..]);
      assert Decode(b).value == [c] + rest;
      assert ([c] + rest)[1..] == rest;
      assert b[..n] + b[n..] == b;
    }
  }

  /** Decoding undoes encoding, for every string. */
  lemma {:induction false} DecodeEncode(s: string)
    ensures Decode(Encode(s)) == Some(s)
    decreases |s|
  {
    if s != [] {
      DecodeEncodeChar(s[0], Encode(s[1..]));
      DecodeEncode(s[1..]);
      assert [s[0]] + s[1..] == s;
    }
  }
}
