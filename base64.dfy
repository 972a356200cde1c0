/**
 * URL-safe Base64 as crypto.b64e and crypto.b64d use it: `base64.urlsafe_b64encode` with '='
 * padding, and `base64.urlsafe_b64decode`, which translates '-' and '_' back to '+' and '/' and
 * then runs CPython's non-strict `binascii.a2b_base64`.
 */
module Base64 {
  import opened Types

  /** The character for a 6-bit value, in the URL-safe alphabet of section 5 of RFC 4648. */
  function Sextet(v: int): (c: char)
    requires 0 <= v < 64
    ensures IsUrlSafe(c) && Value(c) == v
  {
    if v < 26 then ('A' as int + v) as char
    else if v < 52 then ('a' as int + (v - 26)) as char
    else if v < 62 then ('0' as int + (v - 52)) as char
    else if v == 62 then '-'
    else '_'
  }

  predicate IsUrlSafe(c: char) {
    ('A' <= c <= 'Z') || ('a' <= c <= 'z') || ('0' <= c <= '9') || c == '-' || c == '_'
  }

  /**
   * The 6-bit value the decoder gives a character once '-' and '_' are translated to '+' and
   * '/'; 64 for a character outside the alphabet, which the non-strict decoder skips.
   */
  function Value(c: char): (v: int)
    ensures 0 <= v <= 64
  {
    if 'A' <= c <= 'Z' then c as int - 'A' as int
    else if 'a' <= c <= 'z' then c as int - 'a' as int + 26
    else if '0' <= c <= '9' then c as int - '0' as int + 52
    else if c == '-' || c == '+' then 62
    else if c == '_' || c == '/' then 63
    else 64
  }

  /** crypto.b64e: every 3 bytes become 4 characters, and a final group of 1 or 2 bytes is padded with '='. */
  function Encode(data: bytes): (s: string)
    ensures |s| == 4 * ((|data| + 2) / 3)
    ensures forall i :: 0 <= i < |s| ==> IsUrlSafe(s[i]) || (s[i] == '=' && i >= |s| - 2)
    decreases |data|
  {
    if |data| == 0 then ""
    else if |data| == 1 then
      [Sextet(data[0] / 4), Sextet(data[0] % 4 * 16), '=', '=']
    else if |data| == 2 then
      [Sextet(data[0] / 4), Sextet(data[0] % 4 * 16 + data[1] / 16), Sextet(data[1] % 16 * 4), '=']
    else
      var rest := Encode(data[3..]);
      assert (|data| + 2) / 3 == (|data[3..]| + 2) / 3 + 1;
      GroupInFront(Group(data[0], data[1], data[2]), rest);
      Group(data[0], data[1], data[2]) + rest
  }

  /** The four characters of a full group of three bytes. */
  function Group(a: byte, b: byte, c: byte): (g: string)
    ensures |g| == 4 && forall i :: 0 <= i < 4 ==> IsUrlSafe(g[i])
  {
    [Sextet(a / 4), Sextet(a % 4 * 16 + b / 16), Sextet(b % 16 * 4 + c / 64), Sextet(c % 64)]
  }

  /** A group of four alphabet characters in front of an encoding keeps the padding at the end. */
  lemma GroupInFront(group: string, rest: string)
    requires |group| == 4 && forall i :: 0 <= i < 4 ==> IsUrlSafe(group[i])
    requires forall i :: 0 <= i < |rest| ==> IsUrlSafe(rest[i]) || (rest[i] == '=' && i >= |rest| - 2)
    ensures var s := group + rest; forall i :: 0 <= i < |s| ==> IsUrlSafe(s[i]) || (s[i] == '=' && i >= |s| - 2)
  {
    var s := group + rest;
    forall i | 0 <= i < |s|
      ensures IsUrlSafe(s[i]) || (s[i] == '=' && i >= |s| - 2)
    {
      if i >= 4 {
        assert s[i] == rest[i - 4];
      }
    }
  }

  /** The bits still owed to the next output byte are fewer than a full byte. */
  predicate LeftFits(quad: int, left: int) {
    0 <= left &&
    (quad == 1 ==> left < 64) && (quad == 2 ==> left < 16) && (quad == 3 ==> left < 4)
  }

  function Prepend(b: byte, r: Option<bytes>): Option<bytes> {
    if r.Some? then Some([b] + r.value) else None
  }

  /**
   * The non-strict `binascii.a2b_base64` loop: `quad` is the position inside the current group of
   * four characters, `left` the bits not yet emitted and `pads` the '=' characters seen since the
   * last data character. Decoding stops once the padding completes a group; running out of input
   * in the middle of a group is an error.
   */
  function A2b(s: string, quad: int, left: int, pads: int): (r: Option<bytes>)
    requires 0 <= quad < 4 && 0 <= pads && LeftFits(quad, left)
    decreases |s|
  {
    if s == [] then
      if quad == 0 then Some([]) else None
    else if s[0] == '=' then
      if quad >= 2 && quad + pads + 1 >= 4 then Some([])
      else A2b(s[1..], quad, left, if quad >= 2 then pads + 1 else pads)
    else
      var v := Value(s[0]);
      if v == 64 then A2b(s[1..], quad, left, pads)
      else if quad == 0 then A2b(s[1..], 1, v, 0)
      else if quad == 1 then Prepend(left * 4 + v / 16, A2b(s[1..], 2, v % 16, 0))
      else if quad == 2 then Prepend(left * 16 + v / 4, A2b(s[1..], 3, v % 4, 0))
      else Prepend(left * 64 + v, A2b(s[1..], 0, 0, 0))
  }

  /**
   * Each data character carries six bits, so the decoder gives at most three bytes for every four
   * characters; `(4 - quad) % 4` accounts for the characters of the current group already read.
   */
  lemma {:induction false} A2bLength(s: string, quad: int, left: int, pads: int)
    requires 0 <= quad < 4 && 0 <= pads && LeftFits(quad, left)
    ensures var r := A2b(s, quad, left, pads); r.Some? ==> 4 * |r.value| <= 3 * |s| + (4 - quad) % 4
    decreases |s|
  {
    if s != [] && !(s[0] == '=' && quad >= 2 && quad + pads + 1 >= 4) {
      if s[0] == '=' {
        A2bLength(s[1..], quad, left, if quad >= 2 then pads + 1 else pads);
      } else {
        var v := Value(s[0]);
        if v == 64 {
          A2bLength(s[1..], quad, left, pads);
        } else if quad == 0 {
          A2bLength(s[1..], 1, v, 0);
        } else if quad == 1 {
          A2bLength(s[1..], 2, v % 16, 0);
        } else if quad == 2 {
          A2bLength(s[1..], 3, v % 4, 0);
        } else {
          A2bLength(s[1..], 0, 0, 0);
        }
      }
    }
  }

  predicate IsAscii(s: string) {
    forall i :: 0 <= i < |s| ==> s[i] as int < 128
  }

  /** crypto.b64d: a non-ASCII string fails `str.encode("ascii")`, anything else goes to the decoder. */
  function Decode(s: string): (r: Result<bytes>)
    ensures r.Err? ==> r.error == Base64Error
    ensures r.Ok? ==> IsAscii(s) && 4 * |r.value| <= 3 * |s|
  {
    if !IsAscii(s) then Err(Base64Error)
    else
      var r := A2b(s, 0, 0, 0);
      A2bLength(s, 0, 0, 0);
      if r.Some? then Ok(r.value) else Err(Base64Error)
  }

  /** One data character at each position of a group, as the decoder loop handles it. */
  lemma A2bFirst(c: char, t: string)
    requires IsUrlSafe(c)
    ensures A2b([c] + t, 0, 0, 0) == A2b(t, 1, Value(c), 0)
  {
    assert ([c] + t)[1..] == t;
  }

  lemma A2bSecond(c: char, t: string, left: int)
    requires IsUrlSafe(c) && 0 <= left < 64
    ensures A2b([c] + t, 1, left, 0) == Prepend(left * 4 + Value(c) / 16, A2b(t, 2, Value(c) % 16, 0))
  {
    assert ([c] + t)[1..] == t;
  }

  lemma A2bThird(c: char, t: string, left: int)
    requires IsUrlSafe(c) && 0 <= left < 16
    ensures A2b([c] + t, 2, left, 0) == Prepend(left * 16 + Value(c) / 4, A2b(t, 3, Value(c) % 4, 0))
  {
    assert ([c] + t)[1..] == t;
  }

  lemma A2bFourth(c: char, t: string, left: int)
    requires IsUrlSafe(c) && 0 <= left < 4
    ensures A2b([c] + t, 3, left, 0) == Prepend(left * 64 + Value(c), A2b(t, 0, 0, 0))
  {
    assert ([c] + t)[1..] == t;
  }

  /** The sextets of three bytes split and join again at the byte boundaries. */
  lemma GroupBits(a: byte, b: byte, c: byte)
    ensures (a % 4 * 16 + b / 16) / 16 == a % 4 && (a % 4 * 16 + b / 16) % 16 == b / 16
    ensures (b % 16 * 4 + c / 64) / 4 == b % 16 && (b % 16 * 4 + c / 64) % 4 == c / 64
    ensures a / 4 * 4 + a % 4 == a && b / 16 * 16 + b % 16 == b && c / 64 * 64 + c % 64 == c
  {
  }

  /** Decoding four data characters, followed by anything: each adds the bits it carries. */
  lemma DecodeSextets(v0: int, v1: int, v2: int, v3: int, t: string)
    requires 0 <= v0 < 64 && 0 <= v1 < 64 && 0 <= v2 < 64 && 0 <= v3 < 64
    ensures A2b([Sextet(v0), Sextet(v1), Sextet(v2), Sextet(v3)] + t, 0, 0, 0)
         == Prepend(v0 * 4 + v1 / 16, Prepend(v1 % 16 * 16 + v2 / 4, Prepend(v2 % 4 * 64 + v3, A2b(t, 0, 0, 0))))
  {
    var c0, c1, c2, c3 := Sextet(v0), Sextet(v1), Sextet(v2), Sextet(v3);
    assert [c0, c1, c2, c3] + t == [c0] + ([c1] + ([c2] + ([c3] + t)));
    A2bFirst(c0, [c1] + ([c2] + ([c3] + t)));
    A2bSecond(c1, [c2] + ([c3] + t), v0);
    A2bThird(c2, [c3] + t, v1 % 16);
    A2bFourth(c3, t, v2 % 4);
  }

  /** Decoding the characters of one full group of three bytes, followed by anything. */
  lemma DecodeGroup(a: byte, b: byte, c: byte, t: string)
    ensures A2b([Sextet(a / 4), Sextet(a % 4 * 16 + b / 16), Sextet(b % 16 * 4 + c / 64), Sextet(c % 64)] + t, 0, 0, 0)
         == Prepend(a, Prepend(b, Prepend(c, A2b(t, 0, 0, 0))))
  {
    DecodeSextets(a / 4, a % 4 * 16 + b / 16, b % 16 * 4 + c / 64, c % 64, t);
    GroupBits(a, b, c);
  }

  /** Decoding the padded characters of a final single byte. */
  lemma DecodeLastOne(a: byte)
    ensures A2b([Sextet(a / 4), Sextet(a % 4 * 16), '=', '='], 0, 0, 0) == Some([a])
  {
    var c0, c1 := Sextet(a / 4), Sextet(a % 4 * 16);
    assert [c0, c1, '=', '='] == [c0] + ([c1] + ['=', '=']);
    A2bFirst(c0, [c1] + ['=', '=']);
    A2bSecond(c1, ['=', '='], a / 4);
    assert ['=', '='][1..] == ['='];
    assert A2b(['=', '='], 2, 0, 0) == A2b(['='], 2, 0, 1);
    var none: bytes := [];
    assert [a] + none == [a];
  }

  /** Decoding the padded characters of a final pair of bytes. */
  lemma DecodeLastTwo(a: byte, b: byte)
    ensures A2b([Sextet(a / 4), Sextet(a % 4 * 16 + b / 16), Sextet(b % 16 * 4), '='], 0, 0, 0) == Some([a, b])
  {
    var c0, c1, c2 := Sextet(a / 4), Sextet(a % 4 * 16 + b / 16), Sextet(b % 16 * 4);
    assert [c0, c1, c2, '='] == [c0] + ([c1] + ([c2] + ['=']));
    GroupBits(a, b, 0);
    A2bFirst(c0, [c1] + ([c2] + ['=']));
    A2bSecond(c1, [c2] + ['='], a / 4);
    A2bThird(c2, ['='], (a % 4 * 16 + b / 16) % 16);
    assert A2b(['='], 3, 0, 0) == Some([]);
    var none: bytes := [];
    assert [b] + none == [b];
    assert [a] + [b] == [a, b];
  }

  lemma {:induction false} A2bEncode(data: bytes)
    ensures A2b(Encode(data), 0, 0, 0) == Some(data)
    decreases |data|
  {
    if |data| == 1 {
      DecodeLastOne(data[0]);
      assert [data[0]] == data;
    } else if |data| == 2 {
      DecodeLastTwo(data[0], data[1]);
      assert [data[0], data[1]] == data;
    } else if |data| >= 3 {
      A2bEncode(data[3..]);
      EncodeGroup(data);
      GroupDecodes(data[0], data[1], data[2], data[3..], Encode(data[3..]));
      SplitThree(data);
    }
  }

  /** A full group in front of a string that decodes to `rest` decodes to its three bytes and then `rest`. */
  lemma GroupDecodes(a: byte, b: byte, c: byte, rest: bytes, t: string)
    requires A2b(t, 0, 0, 0) == Some(rest)
    ensures A2b([Sextet(a / 4), Sextet(a % 4 * 16 + b / 16), Sextet(b % 16 * 4 + c / 64), Sextet(c % 64)] + t, 0, 0, 0)
         == Some([a] + ([b] + ([c] + rest)))
  {
    DecodeGroup(a, b, c, t);
  }

  /** A leading full group encodes to four characters in front of the rest's encoding. */
  lemma EncodeGroup(data: bytes)
    requires |data| >= 3
    ensures Encode(data) == [Sextet(data[0] / 4), Sextet(data[0] % 4 * 16 + data[1] / 16),
                             Sextet(data[1] % 16 * 4 + data[2] / 64), Sextet(data[2] % 64)] + Encode(data[3..])
  {
  }

  lemma SplitThree(s: bytes)
    requires |s| >= 3
    ensures [s[0]] + ([s[1]] + ([s[2]] + s[3..])) == s
  {
    assert [s[2]] + s[3..] == s[2..];
    assert [s[1]] + s[2..] == s[1..];
  }

  /** b64d undoes b64e. */
  lemma DecodeEncode(data: bytes)
    ensures Decode(Encode(data)) == Ok(data)
  {
    A2bEncode(data);
  }

  /** b64e is injective, so distinct byte strings have distinct encodings. */
  lemma EncodeInjective(x: bytes, y: bytes)
    ensures Encode(x) == Encode(y) ==> x == y
  {
    DecodeEncode(x);
    DecodeEncode(y);
  }
}
