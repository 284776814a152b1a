/** The browser's `atob`, as the forgiving-base64 decode of the WHATWG
    Infra Standard (its "forgiving-base64 decode" algorithm), and the
    canonical base64 encoding of section 4 of RFC 4648 that a canvas uses
    when it writes a data URL.

    The decoder strips ASCII whitespace, drops one or two trailing `=`
    when the length is a multiple of four, fails on a length of the form
    4k+1 or on any character outside the alphabet, and otherwise reads
    the text six bits per character, discarding the bits of a final
    partial byte. */
module Base64 {

  import opened Bitwise

  datatype Option<T> = None | Some(value: T)

  /** ASCII whitespace: TAB, LF, FF, CR and SPACE. */
  predicate IsWhitespace(c: char) {
    c == '\t' || c == '\n' || c == '\U{000C}' || c == '\r' || c == ' '
  }

  /** The 64 characters of the base64 alphabet. */
  predicate IsAlphabet(c: char) {
    ('A' <= c <= 'Z') || ('a' <= c <= 'z') || ('0' <= c <= '9') || c == '+' || c == '/'
  }

  /** The six-bit value a base64 character stands for. */
  function SextetOf(c: char): (v: nat)
    requires IsAlphabet(c)
    ensures v < 64
  {
    if 'A' <= c <= 'Z' then c as int - 'A' as int
    else if 'a' <= c <= 'z' then c as int - 'a' as int + 26
    else if '0' <= c <= '9' then c as int - '0' as int + 52
    else if c == '+' then 62
    else 63
  }

  /** The base64 character for a six-bit value; the inverse of `SextetOf`. */
  function CharOf(v: nat): (c: char)
    requires v < 64
    ensures IsAlphabet(c) && SextetOf(c) == v
  {
    if v < 26 then ('A' as int + v) as char
    else if v < 52 then ('a' as int + v - 26) as char
    else if v < 62 then ('0' as int + v - 52) as char
    else if v == 62 then '+'
    else '/'
  }

  /** The other direction of the alphabet bijection. */
  lemma CharOfSextet(c: char)
    requires IsAlphabet(c)
    ensures CharOf(SextetOf(c)) == c
  {
  }

  /** Step 1 of the decoder: the text with its ASCII whitespace removed,
      everything else kept in order. */
  function StripWhitespace(s: seq<char>): (r: seq<char>)
    ensures |r| <= |s|
    ensures forall i | 0 <= i < |r| :: !IsWhitespace(r[i]) && r[i] in s
    ensures forall c | c in s && !IsWhitespace(c) :: c in r
  {
    if s == [] then []
    else (if IsWhitespace(s[0]) then [] else [s[0]]) + StripWhitespace(s[1..])
  }

  /** Text without whitespace is left as it is. */
  lemma {:induction false} StripNothing(s: seq<char>)
    requires forall i | 0 <= i < |s| :: !IsWhitespace(s[i])
    ensures StripWhitespace(s) == s
  {
    if s != [] {
      StripNothing(s[1..]);
    }
  }

  /** Step 2 of the decoder: when the length is a multiple of four, one or
      two trailing `=` are removed. */
  function DropPadding(d: seq<char>): (r: seq<char>)
    ensures r <= d && |d| - 2 <= |r|
    ensures forall i | |r| <= i < |d| :: d[i] == '='
  {
    if |d| % 4 == 0 && 2 <= |d| && d[|d| - 2] == '=' && d[|d| - 1] == '=' then d[..|d| - 2]
    else if |d| % 4 == 0 && 1 <= |d| && d[|d| - 1] == '=' then d[..|d| - 1]
    else d
  }

  /** Six-bit values, as the decoder reads them off the characters. */
  predicate IsSextets(v: seq<nat>) {
    forall i | 0 <= i < |v| :: v[i] < 64
  }

  /** The six-bit value of every character of base64 text. */
  function SextetsOf(d: seq<char>): (v: seq<nat>)
    requires forall i | 0 <= i < |d| :: IsAlphabet(d[i])
    ensures |v| == |d| && IsSextets(v)
  {
    seq(|d|, i requires 0 <= i < |d| => SextetOf(d[i]))
  }

  /** Steps 5 to 7 of the decoder on the six-bit values: every four values
      give three bytes, a final three give two bytes and a final two give
      one byte; the bits left over are discarded. */
  function DecodeSextets(v: seq<nat>): (r: seq<byte>)
    requires IsSextets(v)
    ensures |r| <= |v|
  {
    if |v| >= 4 then
      [v[0] * 4 + v[1] / 16, v[1] % 16 * 16 + v[2] / 4, v[2] % 4 * 64 + v[3]] + DecodeSextets(v[4..])
    else if |v| == 3 then
      [v[0] * 4 + v[1] / 16, v[1] % 16 * 16 + v[2] / 4]
    else if |v| == 2 then
      [v[0] * 4 + v[1] / 16]
    else
      []
  }

  /** The bytes that base64 text without padding stands for. */
  function DecodeChars(d: seq<char>): (r: seq<byte>)
    requires forall i | 0 <= i < |d| :: IsAlphabet(d[i])
    ensures |r| <= |d|
  {
    DecodeSextets(SextetsOf(d))
  }

  /** The forgiving-base64 decode; `None` is the failure on which `atob`
      throws an `InvalidCharacterError`. */
  function ForgivingDecode(s: seq<char>): Option<seq<byte>> {
    var d := DropPadding(StripWhitespace(s));
    if |d| % 4 == 1 then None
    else if exists i | 0 <= i < |d| :: !IsAlphabet(d[i]) then None
    else Some(DecodeChars(d))
  }

  /** The decoder accepts only base64 characters, `=` and whitespace, and
      yields no more bytes than it read characters. */
  lemma DecodeAcceptsBase64Text(s: seq<char>)
    requires ForgivingDecode(s).Some?
    ensures forall c | c in s :: IsAlphabet(c) || IsWhitespace(c) || c == '='
    ensures |ForgivingDecode(s).value| <= |s|
  {
    var t := StripWhitespace(s);
    var d := DropPadding(t);
    forall c | c in s
      ensures IsAlphabet(c) || IsWhitespace(c) || c == '='
    {
      if !IsWhitespace(c) {
        assert c in t;
        var i :| 0 <= i < |t| && t[i] == c;
        if i < |d| {
          assert d[i] == c;
        }
      }
    }
  }

  /** A string whose stripped length leaves remainder 1 is refused. */
  lemma DecodeRejectsStrayCharacter(s: seq<char>)
    requires |StripWhitespace(s)| % 4 == 1
    ensures ForgivingDecode(s).None?
  {
  }

  /** Three bytes to four six-bit values, most significant bits first; a
      final one or two bytes are padded with zero bits to two or three
      values. */
  function SplitBytes(b: seq<byte>): (v: seq<nat>)
    ensures IsSextets(v) && |v| == SplitCount(|b|)
  {
    if |b| >= 3 then
      [b[0] / 4, b[0] % 4 * 16 + b[1] / 16, b[1] % 16 * 4 + b[2] / 64, b[2] % 64] + SplitBytes(b[3..])
    else if |b| == 2 then
      [b[0] / 4, b[0] % 4 * 16 + b[1] / 16, b[1] % 16 * 4]
    else if |b| == 1 then
      [b[0] / 4, b[0] % 4 * 16]
    else
      []
  }

  /** How many values `n` bytes split into: four for every three bytes,
      and two or three for a final one or two. */
  function SplitCount(n: nat): nat {
    if n >= 3 then 4 + SplitCount(n - 3) else if n == 0 then 0 else n + 1
  }

  /** Base64 text without padding never has the length 4k+1 that the
      decoder refuses: its remainder is 0, 2 or 3 for 0, 1 or 2 bytes over
      a multiple of three. */
  lemma SplitLength(n: nat)
    ensures SplitCount(n) % 4 == (if n % 3 == 0 then 0 else n % 3 + 1)
  {
    var q, r := n / 3, n % 3;
    SplitCountOf(q, r);
    var t := if r == 0 then 0 else r + 1;
    assert SplitCount(n) == 4 * q + t;
  }

  /** Three bytes for every four values: the count for 3q + r bytes. */
  lemma {:induction false} SplitCountOf(q: nat, r: nat)
    requires r < 3
    ensures SplitCount(3 * q + r) == 4 * q + (if r == 0 then 0 else r + 1)
  {
    if q > 0 {
      SplitCountOf(q - 1, r);
      assert 3 * q + r - 3 == 3 * (q - 1) + r;
    }
  }

  /** The base64 character of every six-bit value. */
  function CharsOf(v: seq<nat>): (d: seq<char>)
    requires IsSextets(v)
    ensures |d| == |v|
    ensures forall i | 0 <= i < |d| :: IsAlphabet(d[i])
  {
    seq(|v|, i requires 0 <= i < |v| => CharOf(v[i]))
  }

  /** Reading the characters back gives the values they were made from. */
  lemma SextetsOfChars(v: seq<nat>)
    requires IsSextets(v)
    ensures SextetsOf(CharsOf(v)) == v
  {
    var d := CharsOf(v);
    assert forall i | 0 <= i < |v| :: SextetOf(d[i]) == v[i];
  }

  /** The base64 text of `b` without padding. */
  function EncodeBody(b: seq<byte>): (r: seq<char>)
    ensures |r| == |SplitBytes(b)|
    ensures forall i | 0 <= i < |r| :: IsAlphabet(r[i])
  {
    CharsOf(SplitBytes(b))
  }

  /** The `=` characters that complete the last group of four. */
  function Padding(n: nat): (p: seq<char>)
    ensures forall i | 0 <= i < |p| :: p[i] == '='
  {
    if n % 3 == 1 then "==" else if n % 3 == 2 then "=" else ""
  }

  /** Canonical padded base64, as in section 4 of RFC 4648. */
  function Encode(b: seq<byte>): (r: seq<char>)
    ensures |r| % 4 == 0
    ensures forall i | 0 <= i < |r| :: IsAlphabet(r[i]) || r[i] == '='
  {
    SplitLength(|b|);
    EncodeBody(b) + Padding(|b|)
  }

  /** One full group: the four values of three bytes decode to those bytes. */
  lemma GroupRoundTrip(b0: byte, b1: byte, b2: byte)
    ensures var s0, s1, s2, s3 := b0 / 4, b0 % 4 * 16 + b1 / 16, b1 % 16 * 4 + b2 / 64, b2 % 64;
      s0 * 4 + s1 / 16 == b0 && s1 % 16 * 16 + s2 / 4 == b1 && s2 % 4 * 64 + s3 == b2
  {
    var s1, s2 := b0 % 4 * 16 + b1 / 16, b1 % 16 * 4 + b2 / 64;
    assert s1 / 16 == b0 % 4 && s1 % 16 == b1 / 16;
    assert s2 / 4 == b1 % 16 && s2 % 4 == b2 / 64;
  }

  /** The four values of three bytes, put ahead of any other values, decode
      to those three bytes ahead of the decoding of the others. */
  lemma DecodeGroup(b0: byte, b1: byte, b2: byte, rest: seq<nat>, v: seq<nat>)
    requires IsSextets(rest)
    requires v == [b0 / 4, b0 % 4 * 16 + b1 / 16, b1 % 16 * 4 + b2 / 64, b2 % 64] + rest
    ensures IsSextets(v) && DecodeSextets(v) == [b0, b1, b2] + DecodeSextets(rest)
  {
    GroupRoundTrip(b0, b1, b2);
    assert v[4..] == rest;
  }

  /** Three bytes ahead of others split into four values ahead of the
      split of the others. */
  lemma SplitStep(b: seq<byte>)
    requires |b| >= 3
    ensures SplitBytes(b) == [b[0] / 4, b[0] % 4 * 16 + b[1] / 16, b[1] % 16 * 4 + b[2] / 64, b[2] % 64] + SplitBytes(b[3..])
  {
  }

  /** The three values of a final pair of bytes decode to that pair. */
  lemma DecodePair(b0: byte, b1: byte)
    ensures DecodeSextets([b0 / 4, b0 % 4 * 16 + b1 / 16, b1 % 16 * 4]) == [b0, b1]
  {
    GroupRoundTrip(b0, b1, 0);
  }

  /** The two values of a final single byte decode to that byte. */
  lemma DecodeSingle(b0: byte)
    ensures DecodeSextets([b0 / 4, b0 % 4 * 16]) == [b0]
  {
    GroupRoundTrip(b0, 0, 0);
  }

  /** A final pair of bytes splits into three values. */
  lemma SplitPair(b: seq<byte>)
    requires |b| == 2
    ensures SplitBytes(b) == [b[0] / 4, b[0] % 4 * 16 + b[1] / 16, b[1] % 16 * 4]
  {
  }

  /** A final pair of bytes comes back from its three values. */
  lemma PairStep(b: seq<byte>)
    requires |b| == 2
    ensures DecodeSextets(SplitBytes(b)) == b
  {
    SplitPair(b);
    DecodePair(b[0], b[1]);
    assert b == [b[0], b[1]];
  }

  /** A final single byte comes back from its two values. */
  lemma SingleStep(b: seq<byte>)
    requires |b| == 1
    ensures DecodeSextets(SplitBytes(b)) == b
  {
    var b0 := b[0];
    assert SplitBytes(b) == [b0 / 4, b0 % 4 * 16];
    DecodeSingle(b0);
    assert b == [b0];
  }

  /** Decoding the split values gives back the bytes. */
  lemma {:induction false} SplitRoundTrip(b: seq<byte>)
    ensures DecodeSextets(SplitBytes(b)) == b
  {
    if |b| >= 3 {
      SplitStep(b);
      DecodeGroup(b[0], b[1], b[2], SplitBytes(b[3..]), SplitBytes(b));
      SplitRoundTrip(b[3..]);
      assert b == [b[0], b[1], b[2]] + b[3..];
    } else if |b| == 2 {
      PairStep(b);
    } else if |b| == 1 {
      SingleStep(b);
    }
  }

  /** Decoding the unpadded text gives back the bytes. */
  lemma BodyRoundTrip(b: seq<byte>)
    ensures DecodeChars(EncodeBody(b)) == b
  {
    SextetsOfChars(SplitBytes(b));
    SplitRoundTrip(b);
  }

  /** The decoder removes exactly the padding the encoder added. */
  lemma DropsEncoderPadding(b: seq<byte>)
    ensures DropPadding(Encode(b)) == EncodeBody(b)
  {
    var body, e := EncodeBody(b), Encode(b);
    if |b| % 3 == 0 {
      assert e == body;
      if |e| > 0 {
        assert IsAlphabet(e[|e| - 1]);
      }
    } else if |b| % 3 == 1 {
      assert e == body + "==";
      assert e[..|e| - 2] == body;
    } else {
      assert e == body + "=";
      assert IsAlphabet(e[|e| - 2]);
      assert e[..|e| - 1] == body;
    }
  }

  /** `atob` inverts canonical base64: the decoder returns the encoded bytes. */
  lemma DecodeOfEncode(b: seq<byte>)
    ensures ForgivingDecode(Encode(b)) == Some(b)
  {
    var e, body := Encode(b), EncodeBody(b);
    StripNothing(e);
    DropsEncoderPadding(b);
    assert DropPadding(StripWhitespace(e)) == body;
    SplitLength(|b|);
    assert |body| % 4 != 1;
    assert !exists i | 0 <= i < |body| :: !IsAlphabet(body[i]);
    BodyRoundTrip(b);
  }
}
