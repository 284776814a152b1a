/** The imperative `createZipBlob`: each header is written into a fresh
    zero-filled buffer through `DataView` setters, the parts are collected
    in `localParts` and `centralParts`, `localOffset` is kept as the loop
    goes, `centralSize` is summed at the end and the parts are copied into
    the blob one after another. Each method is proved against the layout
    of module ZipFormat. */
module ZipWriter {
  import opened Bitwise
  import opened LittleEndian
  import opened Crc32
  import opened ZipFormat

  /** `DataView.setUint16(at, v, true)`: the two bytes of `v` modulo 2^16,
      low byte first. */
  method SetUint16(buf: array<byte>, at: nat, v: nat)
    requires at + 2 <= buf.Length
    modifies buf
    ensures buf[..at + 2] == old(buf[..at]) + LE16(v)
    ensures forall i | at + 2 <= i < buf.Length :: buf[i] == old(buf[i])
  {
    LE16Bytes(v);
    buf[at] := v % 256;
    buf[at + 1] := (v / 0x100) % 256;
  }

  /** `DataView.setUint32(at, v, true)`: the four bytes of `v` modulo
      2^32, low byte first. */
  method SetUint32(buf: array<byte>, at: nat, v: nat)
    requires at + 4 <= buf.Length
    modifies buf
    ensures buf[..at + 4] == old(buf[..at]) + LE32(v)
    ensures forall i | at + 4 <= i < buf.Length :: buf[i] == old(buf[i])
  {
    LE32Bytes(v);
    buf[at] := v % 256;
    buf[at + 1] := (v / 0x100) % 256;
    buf[at + 2] := (v / 0x1_0000) % 256;
    buf[at + 3] := (v / 0x100_0000) % 256;
  }

  /** `buf.set(src, at)`. */
  method SetBytes(buf: array<byte>, src: seq<byte>, at: nat)
    requires at + |src| <= buf.Length
    modifies buf
    ensures buf[..at + |src|] == old(buf[..at]) + src
    ensures forall i | at + |src| <= i < buf.Length :: buf[i] == old(buf[i])
  {
    forall i | 0 <= i < |src| {
      buf[at + i] := src[i];
    }
  }

  /** The fields both headers set alike, from `at`: the UTF-8 flag,
      method, time and date 0, the checksum, both sizes, the name length
      and no extra field. */
  method SetSharedFields(buf: array<byte>, at: nat, name: seq<byte>, crc: nat, size: nat)
    requires at + 24 <= buf.Length
    modifies buf
    ensures buf[..at + 24] == old(buf[..at]) + SharedFields(name, crc, size)
    ensures forall i | at + 24 <= i < buf.Length :: buf[i] == old(buf[i])
  {
    SetUint16(buf, at, Utf8Flag);
    SetUint16(buf, at + 2, 0);
    SetUint16(buf, at + 4, 0);
    SetUint16(buf, at + 6, 0);
    SetUint32(buf, at + 8, crc);
    SetUint32(buf, at + 12, size);
    SetUint32(buf, at + 16, size);
    SetUint16(buf, at + 20, |name|);
    SetUint16(buf, at + 22, 0);
    SharedInOrder(old(buf[..at]), name, crc, size);
  }

  /** The local header of one file: a zero-filled buffer of 30 + name
      length bytes, its fields set in order, then the name at 30. */
  method WriteLocalHeader(name: seq<byte>, crc: nat, size: nat) returns (local: array<byte>)
    ensures fresh(local)
    ensures local[..] == LocalHeader(name, crc, size)
  {
    local := new byte[30 + |name|](_ => 0);
    SetUint32(local, 0, LocalSignature);
    assert local[..4] == LE32(LocalSignature);
    SetUint16(local, 4, Version);
    SetSharedFields(local, 6, name, crc, size);
    SetBytes(local, name, 30);
    assert local[..] == local[..30 + |name|];
  }

  /** The central header of one file whose local header is at `offset`:
      a zero-filled buffer of 46 + name length bytes, its fields set in
      order, then the name at 46. */
  method WriteCentralHeader(name: seq<byte>, crc: nat, size: nat, offset: nat) returns (central: array<byte>)
    ensures fresh(central)
    ensures central[..] == CentralHeader(name, crc, size, offset)
  {
    central := new byte[46 + |name|](_ => 0);
    SetUint32(central, 0, CentralSignature);
    assert central[..4] == LE32(CentralSignature);
    SetUint16(central, 4, Version);
    SetUint16(central, 6, Version);
    SetSharedFields(central, 8, name, crc, size);
    SetUint16(central, 32, 0);
    SetUint16(central, 34, 0);
    SetUint16(central, 36, 0);
    SetUint32(central, 38, 0);
    SetUint32(central, 42, offset);
    SetBytes(central, name, 46);
    assert central[..] == central[..46 + |name|];
  }

  /** The end of central directory record. */
  method WriteEndRecord(count: nat, centralSize: nat, centralOffset: nat) returns (eocd: array<byte>)
    ensures fresh(eocd)
    ensures eocd[..] == EndRecord(count, centralSize, centralOffset)
  {
    eocd := new byte[22](_ => 0);
    SetUint32(eocd, 0, EndSignature);
    assert eocd[..4] == LE32(EndSignature);
    SetUint16(eocd, 4, 0);
    SetUint16(eocd, 6, 0);
    SetUint16(eocd, 8, count);
    SetUint16(eocd, 10, count);
    SetUint32(eocd, 12, centralSize);
    SetUint32(eocd, 16, centralOffset);
    SetUint16(eocd, 20, 0);
    assert eocd[..] == eocd[..22];
  }

  /** `centralParts.reduce((sum, part) => sum + part.length, 0)`. */
  method TotalLength(parts: seq<seq<byte>>) returns (sum: nat)
    ensures sum == |Concat(parts)|
  {
    sum := 0;
    var j := 0;
    while j < |parts|
      invariant 0 <= j <= |parts|
      invariant sum == |Concat(parts[..j])|
    {
      ConcatStep(parts, j);
      sum := sum + |parts[j]|;
      j := j + 1;
    }
    assert parts[..j] == parts;
  }

  /** The blob: a copy of every part, one after another. */
  method Assemble(parts: seq<seq<byte>>) returns (blob: seq<byte>)
    ensures blob == Concat(parts)
  {
    blob := [];
    var j := 0;
    while j < |parts|
      invariant 0 <= j <= |parts|
      invariant blob == Concat(parts[..j])
    {
      ConcatStep(parts, j);
      blob := blob + parts[j];
      j := j + 1;
    }
    assert parts[..j] == parts;
  }

  /** `createZipBlob(files)`, with the CRC-32 table already built: the
      bytes of the blob it returns are `Archive(files)`. */
  method CreateZip(table: array<u32>, files: seq<Entry>) returns (blob: seq<byte>)
    requires IsTable(table)
    ensures blob == Archive(files)
  {
    ghost var es := Prepare(files);
    var localParts: seq<seq<byte>> := [];
    var centralParts: seq<seq<byte>> := [];
    var localOffset: nat := 0;
    OffsetZero(es);
    var i := 0;
    while i < |files|
      invariant 0 <= i <= |files|
      invariant Concat(localParts) == Concat(LocalParts(es)[..i])
      invariant centralParts == CentralParts(es)[..i]
      invariant localOffset == Offset(es, i)
    {
      var file := files[i];
      var size := |file.data|;
      var fileCrc := Checksum(table, file.data);
      var local := WriteLocalHeader(file.name, fileCrc, size);
      PushRecord(localParts, local[..], file.data);
      ConcatStep(LocalParts(es), i);
      localParts := localParts + [local[..], file.data];
      var central := WriteCentralHeader(file.name, fileCrc, size, localOffset);
      TakeStep(CentralParts(es), i);
      centralParts := centralParts + [central[..]];
      localOffset := localOffset + local.Length + size;
      OffsetStep(es, i + 1);
      i := i + 1;
    }
    assert LocalParts(es)[..i] == LocalParts(es);
    assert CentralParts(es)[..i] == CentralParts(es);
    SectionLengths(es);
    var centralSize := TotalLength(centralParts);
    var eocd := WriteEndRecord(|files|, centralSize, localOffset);
    blob := Assemble(localParts + centralParts + [eocd[..]]);
    ConcatAppend(localParts + centralParts, [eocd[..]]);
    ConcatAppend(localParts, centralParts);
    ConcatOne(eocd[..]);
  }
}
