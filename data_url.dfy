/** Turning the data URL that a canvas produces into the bytes of the image
    it carries: the text after the first comma is given to `atob`, and the
    character codes of the result become the entries of a byte array. */
module DataUrl {

  import opened Bitwise
  import opened Base64

  /** `s.indexOf(c)`: the position of the first `c` in `s`, or -1. */
  function IndexOf(s: seq<char>, c: char): (r: int)
    ensures -1 <= r < |s|
    ensures r == -1 <==> c !in s
    ensures r >= 0 ==> s[r] == c && c !in s[..r]
  {
    if s == [] then -1
    else if s[0] == c then 0
    else
      var k := IndexOf(s[1..], c);
      if k == -1 then -1
      else
        assert s[..k + 1] == [s[0]] + s[1..][..k];
        k + 1
  }

  /** The text handed to `atob`: everything after the first comma, or the
      whole URL when it has no comma. */
  function Payload(dataUrl: seq<char>): (p: seq<char>)
    ensures ',' !in dataUrl ==> p == dataUrl
    ensures ',' in dataUrl ==>
              && |p| < |dataUrl|
              && dataUrl[|dataUrl| - |p| - 1] == ','
              && ',' !in dataUrl[..|dataUrl| - |p| - 1]
              && dataUrl[|dataUrl| - |p|..] == p
  {
    var comma := IndexOf(dataUrl, ',');
    if comma >= 0 then dataUrl[comma + 1..] else dataUrl
  }

  /** A header without a comma is cut off whole, so the payload is exactly
      the text written after it. */
  lemma PayloadAfterHeader(header: seq<char>, body: seq<char>)
    requires ',' !in header
    ensures Payload(header + [','] + body) == body
  {
    var s := header + [','] + body;
    assert s[|header|] == ',';
    assert s[..|header|] == header;
  }

  /** `atob`: the forgiving-base64 decode as a string of character codes
      below 256, or `None` where `atob` throws. */
  function Atob(s: seq<char>): Option<seq<char>> {
    match ForgivingDecode(s)
    case None => None
    case Some(b) => Some(seq(|b|, i requires 0 <= i < |b| => b[i] as char))
  }

  /** The copy loop of `dataUrlToBytes`: a new `Uint8Array` as long as the
      decoded string, holding at each position that character's code cut to
      a byte, as a store into a `Uint8Array` cuts it. */
  method CharCodes(text: seq<char>) returns (a: array<byte>)
    ensures fresh(a) && a.Length == |text|
    ensures forall i | 0 <= i < |text| :: a[i] == (text[i] as int) % 256
  {
    a := new byte[|text|](_ => 0);
    for i := 0 to |text|
      invariant forall j | 0 <= j < i :: a[j] == (text[j] as int) % 256
    {
      a[i] := (text[i] as int) % 256;
    }
  }

  /** Bytes turned into characters and back, through a store into a
      `Uint8Array`, are unchanged. */
  lemma CodesOfChars(b: seq<byte>, text: seq<char>, codes: seq<byte>)
    requires text == seq(|b|, i requires 0 <= i < |b| => b[i] as char)
    requires |codes| == |text| && forall i | 0 <= i < |text| :: codes[i] == (text[i] as int) % 256
    ensures codes == b
  {
  }

  /** `dataUrlToBytes`: `None` stands for the `InvalidCharacterError` that
      `atob` throws; otherwise a new array holds the decoded bytes. */
  method DataUrlToBytes(dataUrl: seq<char>) returns (bytes: Option<array<byte>>)
    ensures bytes.None? <==> ForgivingDecode(Payload(dataUrl)).None?
    ensures bytes.Some? ==> fresh(bytes.value) && bytes.value[..] == ForgivingDecode(Payload(dataUrl)).value
  {
    var base64 := Payload(dataUrl);
    var binary := Atob(base64);
    if binary.None? {
      return None;
    }
    var a := CharCodes(binary.value);
    CodesOfChars(ForgivingDecode(base64).value, binary.value, a[..]);
    return Some(a);
  }

  /** A data URL whose header has no comma and whose payload is the
      canonical base64 of `b` decodes to `b`. */
  lemma DataUrlRoundTrip(header: seq<char>, b: seq<byte>)
    requires ',' !in header
    ensures ForgivingDecode(Payload(header + [','] + Encode(b))) == Some(b)
  {
    PayloadAfterHeader(header, Encode(b));
    DecodeOfEncode(b);
  }
}
