/** Little-endian byte order, as `DataView.setUint16` and `setUint32` write
    it with `littleEndian = true` (APPNOTE.TXT section 4.4.1.1). The setters
    take their argument modulo 2^16 or 2^32, so the encoders here do too. */
module LittleEndian {
  import opened Bitwise

  /** 256 to the power `i`. */
  function Pow256(i: nat): (p: nat)
    ensures p >= 1
  {
    if i == 0 then 1 else 256 * Pow256(i - 1)
  }

  /** Byte `i` of `v`, counting from the lowest. */
  function ByteOf(v: nat, i: nat): byte {
    (v / Pow256(i)) % 256
  }

  /** The two bytes `setUint16` writes for `v`: low byte first. */
  function LE16(v: nat): (r: seq<byte>)
    ensures |r| == 2
  {
    seq(2, i requires 0 <= i < 2 => ByteOf(v, i))
  }

  /** The four bytes `setUint32` writes for `v`: low byte first. */
  function LE32(v: nat): (r: seq<byte>)
    ensures |r| == 4
  {
    seq(4, i requires 0 <= i < 4 => ByteOf(v, i))
  }

  /** The value of two bytes read low byte first. */
  function ReadLE16(s: seq<byte>): (v: nat)
    requires |s| == 2
    ensures v < 0x1_0000
  {
    s[0] as nat + 256 * s[1] as nat
  }

  /** The value of four bytes read low byte first. */
  function ReadLE32(s: seq<byte>): (v: nat)
    requires |s| == 4
    ensures v < 0x1_0000_0000
  {
    s[0] as nat + 0x100 * s[1] as nat + 0x1_0000 * s[2] as nat + 0x100_0000 * s[3] as nat
  }

  /** The bytes of `LE16(v)`, written out. */
  lemma LE16Bytes(v: nat)
    ensures LE16(v) == [v % 256, (v / 0x100) % 256]
  {
    assert Pow256(1) == 0x100;
  }

  /** The bytes of `LE32(v)`, written out. */
  lemma LE32Bytes(v: nat)
    ensures LE32(v) == [v % 256, (v / 0x100) % 256, (v / 0x1_0000) % 256, (v / 0x100_0000) % 256]
  {
    assert Pow256(1) == 0x100;
    assert Pow256(2) == 0x1_0000;
    assert Pow256(3) == 0x100_0000;
  }

  /** Reading back what `setUint16` wrote gives the value modulo 2^16. */
  lemma ReadLE16OfLE16(v: nat)
    ensures ReadLE16(LE16(v)) == v % 0x1_0000
  {
    LE16Bytes(v);
    var b0, q1 := v % 256, v / 256;
    var b1, q2 := q1 % 256, q1 / 256;
    assert v == b0 + 256 * b1 + 0x1_0000 * q2;
  }

  /** The low byte and the remaining bytes of `v`. */
  lemma SplitByte(v: nat)
    ensures v == v % 256 + 256 * (v / 256)
  {
  }

  /** Reading back what `setUint32` wrote gives the value modulo 2^32. */
  lemma ReadLE32OfLE32(v: nat)
    ensures ReadLE32(LE32(v)) == v % 0x1_0000_0000
  {
    LE32Bytes(v);
    var q1, q2, q3 := v / 0x100, v / 0x1_0000, v / 0x100_0000;
    assert q2 == q1 / 256 && q3 == q2 / 256;
    SplitByte(v);
    SplitByte(q1);
    SplitByte(q2);
    SplitByte(q3);
    var low := v % 256 + 0x100 * (q1 % 256) + 0x1_0000 * (q2 % 256) + 0x100_0000 * (q3 % 256);
    assert ReadLE32(LE32(v)) == low;
    ModOfParts(v, low, q3 / 256);
  }

  /** A number written as `low + 2^32 * q`, with `low` below 2^32. */
  lemma ModOfParts(v: nat, low: nat, q: nat)
    requires low < 0x1_0000_0000 && v == low + 0x1_0000_0000 * q
    ensures v % 0x1_0000_0000 == low
  {
  }

  /** Dividing `a + 256 * b` by 256, for a byte `a`. */
  lemma DivByte(a: byte, b: nat)
    ensures (a + 256 * b) / 256 == b && (a + 256 * b) % 256 == a
  {
  }

  /** Every two bytes are the encoding of the value they hold. */
  lemma LE16OfReadLE16(s: seq<byte>)
    requires |s| == 2
    ensures LE16(ReadLE16(s)) == s
  {
    LE16Bytes(ReadLE16(s));
  }

  /** Every four bytes are the encoding of the value they hold. */
  lemma LE32OfReadLE32(s: seq<byte>)
    requires |s| == 4
    ensures LE32(ReadLE32(s)) == s
  {
    var v := ReadLE32(s);
    LE32Bytes(v);
    var t2 := s[2] as nat + 256 * s[3] as nat;
    var t1 := s[1] as nat + 256 * t2;
    DivByte(s[0], t1);
    DivByte(s[1], t2);
    DivByte(s[2], s[3]);
    assert v / 0x1_0000 == t1 / 256;
    assert v / 0x100_0000 == t2 / 256;
  }
}
