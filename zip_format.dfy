/** The bytes of the archive `createZipBlob` produces: stored (uncompressed)
    entries in the layout of PKWARE's APPNOTE.TXT, that is one local file
    header (section 4.3.7) followed by the data per entry, then one central
    directory header (section 4.3.12) per entry, then the end of central
    directory record (section 4.3.16), all fields little-endian. */
module ZipFormat {
  import opened Bitwise
  import opened LittleEndian
  import opened Crc32

  const LocalSignature: nat := 0x04034b50
  const CentralSignature: nat := 0x02014b50
  const EndSignature: nat := 0x06054b50

  /** "Version made by" and "version needed to extract": 2.0. */
  const Version: nat := 20

  /** General purpose bit 11: the name is UTF-8 (section 4.4.4). */
  const Utf8Flag: nat := 0x0800

  /** One file handed to `createZipBlob`: its name, already UTF-8
      encoded, and its contents. */
  datatype Entry = Entry(name: seq<byte>, data: seq<byte>)

  /** What the loop works out for one file before writing its headers: the
      name bytes, the contents and their CRC-32. */
  datatype Stored = Stored(name: seq<byte>, data: seq<byte>, crc: nat)

  /** Every file with its checksum, in input order. */
  function Prepare(files: seq<Entry>): seq<Stored> {
    seq(|files|, k requires 0 <= k < |files| => Stored(files[k].name, files[k].data, Crc(files[k].data)))
  }

  /** The 24 bytes both headers share (local offsets 6 to 30, central
      offsets 8 to 32): the UTF-8 flag, method 0 (stored), time and date 0,
      the checksum, the compressed and uncompressed sizes (both the data
      length), the name length and an empty extra field. */
  function SharedFields(name: seq<byte>, crc: nat, size: nat): (f: seq<byte>)
    ensures |f| == 24
  {
    LE16(Utf8Flag) + LE16(0) + LE16(0) + LE16(0)
    + LE32(crc) + LE32(size) + LE32(size) + LE16(|name|) + LE16(0)
  }

  /** The local file header, 30 bytes and the name. */
  function LocalHeader(name: seq<byte>, crc: nat, size: nat): (h: seq<byte>)
    ensures |h| == 30 + |name|
  {
    LE32(LocalSignature) + LE16(Version) + SharedFields(name, crc, size) + name
  }

  /** The central directory header, 46 bytes and the name: after the
      shared fields, no comment, disk 0, no attributes, and the offset of
      the local header. */
  function CentralHeader(name: seq<byte>, crc: nat, size: nat, offset: nat): (h: seq<byte>)
    ensures |h| == 46 + |name|
  {
    LE32(CentralSignature) + LE16(Version) + LE16(Version) + SharedFields(name, crc, size)
    + LE16(0) + LE16(0) + LE16(0) + LE32(0) + LE32(offset) + name
  }

  /** The end of central directory record, 22 bytes. */
  function EndRecord(count: nat, centralSize: nat, centralOffset: nat): (h: seq<byte>)
    ensures |h| == 22
  {
    LE32(EndSignature) + LE16(0) + LE16(0) + LE16(count) + LE16(count)
    + LE32(centralSize) + LE32(centralOffset) + LE16(0)
  }

  /** The bytes of `parts` one after another. */
  function Concat(parts: seq<seq<byte>>): seq<byte> {
    if parts == [] then [] else Concat(parts[..|parts| - 1]) + parts[|parts| - 1]
  }

  /** The local record of an entry: its local header, then its data. */
  function LocalRecord(e: Stored): (r: seq<byte>)
    ensures |r| == 30 + |e.name| + |e.data|
  {
    LocalHeader(e.name, e.crc, |e.data|) + e.data
  }

  /** The local records, in input order. */
  function LocalParts(es: seq<Stored>): (parts: seq<seq<byte>>)
    ensures |parts| == |es|
  {
    seq(|es|, i requires 0 <= i < |es| => LocalRecord(es[i]))
  }

  /** Where entry `k`'s local header starts: the running `localOffset`,
      the length of the local records before it. */
  function Offset(es: seq<Stored>, k: nat): nat
    requires k <= |es|
  {
    |Concat(LocalParts(es)[..k])|
  }

  /** The central header of entry `k`, pointing at its local header. */
  function CentralRecord(es: seq<Stored>, k: nat): (h: seq<byte>)
    requires k < |es|
    ensures |h| == 46 + |es[k].name|
  {
    CentralHeader(es[k].name, es[k].crc, |es[k].data|, Offset(es, k))
  }

  /** The central headers, in input order (`centralParts`). */
  function CentralParts(es: seq<Stored>): (parts: seq<seq<byte>>)
    ensures |parts| == |es|
  {
    seq(|es|, i requires 0 <= i < |es| => CentralRecord(es, i))
  }

  /** Where entry `k`'s central header starts within the central
      directory. */
  function CentralOffset(es: seq<Stored>, k: nat): nat
    requires k <= |es|
  {
    |Concat(CentralParts(es)[..k])|
  }

  /** All local records. */
  function LocalSection(es: seq<Stored>): seq<byte> {
    Concat(LocalParts(es))
  }

  /** The central directory. */
  function Directory(es: seq<Stored>): seq<byte> {
    Concat(CentralParts(es))
  }

  /** The end record: the entry count, the directory's size
      (`centralSize`) and its offset (the final `localOffset`). */
  function End(es: seq<Stored>): (h: seq<byte>)
    ensures |h| == 22
  {
    EndRecord(|es|, |Directory(es)|, |LocalSection(es)|)
  }

  /** The local records, the central directory and the end record. */
  function Layout(es: seq<Stored>): seq<byte> {
    LocalSection(es) + Directory(es) + End(es)
  }

  /** The bytes of the blob `createZipBlob(files)` returns. */
  function Archive(files: seq<Entry>): seq<byte> {
    Layout(Prepare(files))
  }

  /** The sum of 30 + name length + data length over the first `k`
      entries. */
  function LocalSpan(es: seq<Stored>, k: nat): nat
    requires k <= |es|
  {
    if k == 0 then 0 else LocalSpan(es, k - 1) + 30 + |es[k - 1].name| + |es[k - 1].data|
  }

  /** The sum of 46 + name length over the first `k` entries. */
  function CentralSpan(es: seq<Stored>, k: nat): nat
    requires k <= |es|
  {
    if k == 0 then 0 else CentralSpan(es, k - 1) + 46 + |es[k - 1].name|
  }

  // ---------------------------------------------------------------------
  // Generic facts about concatenation and slices.
  // ---------------------------------------------------------------------

  /** Taking one more part of a list appends that part. */
  lemma TakeStep(parts: seq<seq<byte>>, k: nat)
    requires k < |parts|
    ensures parts[..k + 1] == parts[..k] + [parts[k]]
  {
  }

  /** The first `k + 1` parts are the first `k` and part `k`. */
  lemma ConcatStep(parts: seq<seq<byte>>, k: nat)
    requires k < |parts|
    ensures Concat(parts[..k + 1]) == Concat(parts[..k]) + parts[k]
  {
    assert parts[..k + 1][..k] == parts[..k];
  }

  /** The concatenation of the first `j` parts is a prefix of that of the
      first `k`. */
  lemma {:induction false} ConcatPrefix(parts: seq<seq<byte>>, j: nat, k: nat)
    requires j <= k <= |parts|
    ensures |Concat(parts[..j])| <= |Concat(parts[..k])|
    ensures Concat(parts[..k])[..|Concat(parts[..j])|] == Concat(parts[..j])
    decreases k
  {
    if j < k {
      ConcatPrefix(parts, j, k - 1);
      ConcatStep(parts, k - 1);
      var a, b, c := Concat(parts[..j]), Concat(parts[..k - 1]), Concat(parts[..k]);
      assert forall i | 0 <= i < |a| :: c[i] == b[i] == a[i];
    }
  }

  /** Part `k` is found in the concatenation `w` right after the first `k`
      parts, that is from `o` to `j`. */
  lemma ConcatAt(parts: seq<seq<byte>>, k: nat, w: seq<byte>, o: nat, j: nat, r: seq<byte>)
    requires k < |parts| && w == Concat(parts) && r == parts[k]
    requires o == |Concat(parts[..k])| && j == o + |r|
    ensures j <= |w| && w[o..j] == r
  {
    assert parts[..|parts|] == parts;
    ConcatPrefix(parts, k + 1, |parts|);
    ConcatStep(parts, k);
    InPrefix(w, Concat(parts[..k + 1]), Concat(parts[..k]), r, o, j);
  }

  /** The last piece `r` of a prefix `q + r` of `w`. */
  lemma InPrefix(w: seq<byte>, p: seq<byte>, q: seq<byte>, r: seq<byte>, o: nat, j: nat)
    requires |p| <= |w| && w[..|p|] == p && p == q + r && o == |q| && j == o + |r|
    ensures j <= |w| && w[o..j] == r
  {
    assert forall i | o <= i < j :: w[i] == p[i] == r[i - o];
  }

  /** Concatenation distributes over appending lists of parts. */
  lemma {:induction false} ConcatAppend(a: seq<seq<byte>>, b: seq<seq<byte>>)
    ensures Concat(a + b) == Concat(a) + Concat(b)
    decreases |b|
  {
    if b == [] {
      assert a + b == a;
    } else {
      var c := b[..|b| - 1];
      assert (a + b)[..|a + b| - 1] == a + c;
      ConcatAppend(a, c);
    }
  }

  /** One part on its own. */
  lemma ConcatOne(part: seq<byte>)
    ensures Concat([part]) == part
  {
    assert [part][..0] == [];
  }

  /** Pushing a header and its data adds the record they make. */
  lemma PushRecord(parts: seq<seq<byte>>, header: seq<byte>, data: seq<byte>)
    ensures Concat(parts + [header, data]) == Concat(parts) + (header + data)
  {
    assert (parts + [header, data])[..|parts| + 1] == parts + [header];
    assert (parts + [header])[..|parts|] == parts;
  }

  /** A slice inside the first of three pieces. */
  lemma InFirst(z: seq<byte>, a: seq<byte>, b: seq<byte>, c: seq<byte>, i: nat, j: nat, r: seq<byte>)
    requires z == a + b + c && i <= j <= |a| && a[i..j] == r
    ensures j <= |z| && z[i..j] == r
  {
    assert forall m | i <= m < j :: z[m] == a[m];
  }

  /** A slice inside the second of three pieces, at `x..y` in the whole. */
  lemma InSecond(z: seq<byte>, a: seq<byte>, b: seq<byte>, c: seq<byte>, i: nat, j: nat, r: seq<byte>,
                 x: nat, y: nat)
    requires z == a + b + c && i <= j <= |b| && b[i..j] == r && x == |a| + i && y == |a| + j
    ensures y <= |z| && z[x..y] == r
  {
    assert forall m | x <= m < y :: z[m] == b[m - |a|];
  }

  /** The pieces of a record `h + d` found at `o` in `z`. */
  lemma Split(z: seq<byte>, o: nat, h: seq<byte>, d: seq<byte>, j: nat, m: nat)
    requires o + |h| + |d| <= |z| && z[o..o + |h| + |d|] == h + d && j == o + |h| && m == j + |d|
    ensures z[o..j] == h && z[j..m] == d
  {
    assert forall i | o <= i < j :: z[i] == (h + d)[i - o];
    assert forall i | j <= i < m :: z[i] == (h + d)[i - o];
  }

  /** Appending is associative. */
  lemma AppendAssoc(a: seq<byte>, b: seq<byte>, c: seq<byte>)
    ensures a + (b + c) == a + b + c
  {
  }

  /** The shared fields after any prefix `p`, one field at a time. */
  lemma SharedInOrder(p: seq<byte>, name: seq<byte>, crc: nat, size: nat)
    ensures p + SharedFields(name, crc, size)
         == p + LE16(Utf8Flag) + LE16(0) + LE16(0) + LE16(0)
            + LE32(crc) + LE32(size) + LE32(size) + LE16(|name|) + LE16(0)
  {
    var f1 := LE16(Utf8Flag) + LE16(0) + LE16(0) + LE16(0) + LE32(crc) + LE32(size) + LE32(size) + LE16(|name|);
    var f2 := LE16(Utf8Flag) + LE16(0) + LE16(0) + LE16(0) + LE32(crc) + LE32(size) + LE32(size);
    var f3 := LE16(Utf8Flag) + LE16(0) + LE16(0) + LE16(0) + LE32(crc) + LE32(size);
    var f4 := LE16(Utf8Flag) + LE16(0) + LE16(0) + LE16(0) + LE32(crc);
    var f5 := LE16(Utf8Flag) + LE16(0) + LE16(0) + LE16(0);
    var f6 := LE16(Utf8Flag) + LE16(0) + LE16(0);
    var f7 := LE16(Utf8Flag) + LE16(0);
    AppendAssoc(p, f1, LE16(0));
    AppendAssoc(p, f2, LE16(|name|));
    AppendAssoc(p, f3, LE32(size));
    AppendAssoc(p, f4, LE32(size));
    AppendAssoc(p, f5, LE32(crc));
    AppendAssoc(p, f6, LE16(0));
    AppendAssoc(p, f7, LE16(0));
    AppendAssoc(p, LE16(Utf8Flag), LE16(0));
  }

  /** The local header is its fields in the order `createZipBlob` sets
      them. */
  lemma LocalHeaderInOrder(name: seq<byte>, crc: nat, size: nat)
    ensures LocalHeader(name, crc, size)
         == LE32(LocalSignature) + LE16(Version) + LE16(Utf8Flag) + LE16(0) + LE16(0) + LE16(0)
            + LE32(crc) + LE32(size) + LE32(size) + LE16(|name|) + LE16(0) + name
  {
    SharedInOrder(LE32(LocalSignature) + LE16(Version), name, crc, size);
  }

  /** The central header is its fields in the order `createZipBlob` sets
      them. */
  lemma CentralHeaderInOrder(name: seq<byte>, crc: nat, size: nat, offset: nat)
    ensures CentralHeader(name, crc, size, offset)
         == LE32(CentralSignature) + LE16(Version) + LE16(Version) + LE16(Utf8Flag) + LE16(0) + LE16(0) + LE16(0)
            + LE32(crc) + LE32(size) + LE32(size) + LE16(|name|) + LE16(0) + LE16(0) + LE16(0) + LE16(0)
            + LE32(0) + LE32(offset) + name
  {
    SharedInOrder(LE32(CentralSignature) + LE16(Version) + LE16(Version), name, crc, size);
  }

  // ---------------------------------------------------------------------
  // Offsets and lengths.
  // ---------------------------------------------------------------------

  /** The first entry is at offset 0. */
  lemma OffsetZero(es: seq<Stored>)
    ensures Offset(es, 0) == 0
  {
    assert LocalParts(es)[..0] == [];
  }

  /** The running offset grows by each entry's 30 + name + data bytes
      (`localOffset += local.length + size`). */
  lemma OffsetStep(es: seq<Stored>, k: nat)
    requires 0 < k <= |es|
    ensures Offset(es, k) == Offset(es, k - 1) + 30 + |es[k - 1].name| + |es[k - 1].data|
  {
    ConcatStep(LocalParts(es), k - 1);
    assert k - 1 + 1 == k;
  }

  /** The offset of entry `k` is the sum of 30 + name + data over the
      entries before it. */
  lemma {:induction false} OffsetIsSpan(es: seq<Stored>, k: nat)
    requires k <= |es|
    ensures Offset(es, k) == LocalSpan(es, k)
  {
    if k > 0 {
      OffsetIsSpan(es, k - 1);
      OffsetStep(es, k);
    } else {
      OffsetZero(es);
    }
  }

  /** The first central header is at the start of the directory. */
  lemma CentralOffsetZero(es: seq<Stored>)
    ensures CentralOffset(es, 0) == 0
  {
    assert CentralParts(es)[..0] == [];
  }

  /** The central offset grows by each entry's 46 + name bytes. */
  lemma CentralOffsetStep(es: seq<Stored>, k: nat)
    requires 0 < k <= |es|
    ensures CentralOffset(es, k) == CentralOffset(es, k - 1) + 46 + |es[k - 1].name|
  {
    ConcatStep(CentralParts(es), k - 1);
    assert k - 1 + 1 == k;
  }

  /** The central offset of entry `k` is the sum of 46 + name over the
      entries before it. */
  lemma {:induction false} CentralOffsetIsSpan(es: seq<Stored>, k: nat)
    requires k <= |es|
    ensures CentralOffset(es, k) == CentralSpan(es, k)
  {
    if k > 0 {
      CentralOffsetIsSpan(es, k - 1);
      CentralOffsetStep(es, k);
    } else {
      CentralOffsetZero(es);
    }
  }

  /** The local section ends at the final offset, the directory at the
      final central offset. */
  lemma SectionLengths(es: seq<Stored>)
    ensures |LocalSection(es)| == Offset(es, |es|)
    ensures |Directory(es)| == CentralOffset(es, |es|)
  {
    assert LocalParts(es)[..|es|] == LocalParts(es);
    assert CentralParts(es)[..|es|] == CentralParts(es);
  }

  /** The archive's length is the sum of 30 + name + data over the
      entries, plus the sum of 46 + name, plus 22. */
  lemma LayoutLength(es: seq<Stored>)
    ensures |Layout(es)| == LocalSpan(es, |es|) + CentralSpan(es, |es|) + 22
  {
    SectionLengths(es);
    OffsetIsSpan(es, |es|);
    CentralOffsetIsSpan(es, |es|);
  }

  /** With no files the archive is the 22-byte end record alone, with
      every count, size and offset 0. */
  lemma ArchiveOfNothing()
    ensures Archive([]) == EndRecord(0, 0, 0)
  {
    var es := Prepare([]);
    assert LocalParts(es) == [] && CentralParts(es) == [];
  }

  // ---------------------------------------------------------------------
  // Where each record lies in the archive.
  // ---------------------------------------------------------------------

  /** The local record of entry `k` starts at `Offset(es, k)`. */
  lemma LocalRecordAt(es: seq<Stored>, k: nat)
    requires k < |es|
    ensures Offset(es, k) + |LocalRecord(es[k])| <= |LocalSection(es)|
    ensures Layout(es)[Offset(es, k)..Offset(es, k) + |LocalRecord(es[k])|] == LocalRecord(es[k])
  {
    ConcatAt(LocalParts(es), k, LocalSection(es), Offset(es, k),
             Offset(es, k) + |LocalRecord(es[k])|, LocalRecord(es[k]));
    InFirst(Layout(es), LocalSection(es), Directory(es), End(es),
            Offset(es, k), Offset(es, k) + |LocalRecord(es[k])|, LocalRecord(es[k]));
  }

  /** Entry `k`'s local header is at `Offset(es, k)` and its data right
      after it, at `Offset(es, k) + 30 + name length`. */
  lemma EntryAt(es: seq<Stored>, k: nat)
    requires k < |es|
    ensures Offset(es, k) + 30 + |es[k].name| + |es[k].data| <= |LocalSection(es)|
    ensures Layout(es)[Offset(es, k)..Offset(es, k) + 30 + |es[k].name|]
            == LocalHeader(es[k].name, es[k].crc, |es[k].data|)
    ensures Layout(es)[Offset(es, k) + 30 + |es[k].name|..Offset(es, k) + 30 + |es[k].name| + |es[k].data|]
            == es[k].data
  {
    LocalRecordAt(es, k);
    Split(Layout(es), Offset(es, k), LocalHeader(es[k].name, es[k].crc, |es[k].data|), es[k].data,
          Offset(es, k) + 30 + |es[k].name|, Offset(es, k) + 30 + |es[k].name| + |es[k].data|);
  }

  /** Entry `k`'s central header starts `CentralOffset(es, k)` bytes into
      the directory, which follows the local section. */
  lemma CentralRecordAt(es: seq<Stored>, k: nat)
    requires k < |es|
    ensures CentralOffset(es, k) + 46 + |es[k].name| <= |Directory(es)|
    ensures Layout(es)[|LocalSection(es)| + CentralOffset(es, k)..|LocalSection(es)| + CentralOffset(es, k) + 46 + |es[k].name|]
            == CentralRecord(es, k)
  {
    ConcatAt(CentralParts(es), k, Directory(es), CentralOffset(es, k),
             CentralOffset(es, k) + 46 + |es[k].name|, CentralRecord(es, k));
    InSecond(Layout(es), LocalSection(es), Directory(es), End(es),
             CentralOffset(es, k), CentralOffset(es, k) + 46 + |es[k].name|, CentralRecord(es, k),
             |LocalSection(es)| + CentralOffset(es, k), |LocalSection(es)| + CentralOffset(es, k) + 46 + |es[k].name|);
  }

  /** The archive ends with the end record. */
  lemma EndAt(es: seq<Stored>)
    ensures |Layout(es)| >= 22
    ensures Layout(es)[|Layout(es)| - 22..] == End(es)
  {
    var z := Layout(es);
    assert forall i | |z| - 22 <= i < |z| :: z[i] == End(es)[i - (|z| - 22)];
  }

  // ---------------------------------------------------------------------
  // The fields of each record, as a reader decodes them.
  // ---------------------------------------------------------------------

  /** The bytes `SharedFields` lays out, field by field. */
  lemma SharedFieldsBytes(name: seq<byte>, crc: nat, size: nat)
    ensures var f := SharedFields(name, crc, size);
      && f[0..2] == LE16(Utf8Flag)
      && f[2..4] == LE16(0) && f[4..6] == LE16(0) && f[6..8] == LE16(0)
      && f[8..12] == LE32(crc)
      && f[12..16] == LE32(size) && f[16..20] == LE32(size)
      && f[20..22] == LE16(|name|)
      && f[22..24] == LE16(0)
  {
    var f := SharedFields(name, crc, size);
    var a := LE16(Utf8Flag) + LE16(0) + LE16(0) + LE16(0);
    var b := a + LE32(crc) + LE32(size) + LE32(size);
    assert f == b + LE16(|name|) + LE16(0);
    assert a[0..2] == LE16(Utf8Flag) && a[2..4] == LE16(0) && a[4..6] == LE16(0) && a[6..8] == LE16(0);
    assert b[..8] == a;
    assert b[8..12] == LE32(crc) && b[12..16] == LE32(size) && b[16..20] == LE32(size);
    assert f[..20] == b;
    var c := LE16(|name|) + LE16(0);
    assert f[20..] == c;
    assert c[0..2] == LE16(|name|) && c[2..4] == LE16(0);
  }

  /** A reader of the shared fields finds the UTF-8 flag, method, time and
      date 0 (stored, no timestamp), the checksum, both sizes, the name
      length and no extra field, each truncated to its width. */
  lemma SharedFieldsRead(name: seq<byte>, crc: nat, size: nat)
    ensures var f := SharedFields(name, crc, size);
      && ReadLE16(f[0..2]) == Utf8Flag
      && ReadLE16(f[2..4]) == 0 && ReadLE16(f[4..6]) == 0 && ReadLE16(f[6..8]) == 0
      && ReadLE32(f[8..12]) == crc % 0x1_0000_0000
      && ReadLE32(f[12..16]) == size % 0x1_0000_0000
      && ReadLE32(f[16..20]) == size % 0x1_0000_0000
      && ReadLE16(f[20..22]) == |name| % 0x1_0000
      && ReadLE16(f[22..24]) == 0
  {
    SharedFieldsBytes(name, crc, size);
    ReadLE16OfLE16(Utf8Flag);
    ReadLE16OfLE16(0);
    ReadLE32OfLE32(crc);
    ReadLE32OfLE32(size);
    ReadLE16OfLE16(|name|);
  }

  /** A reader of the local header finds its signature and version 2.0,
      the shared fields at offset 6, and the name at offset 30. */
  lemma LocalHeaderRead(name: seq<byte>, crc: nat, size: nat)
    ensures var h := LocalHeader(name, crc, size);
      && ReadLE32(h[0..4]) == LocalSignature
      && ReadLE16(h[4..6]) == Version
      && h[6..30] == SharedFields(name, crc, size)
      && h[30..] == name
  {
    var h := LocalHeader(name, crc, size);
    assert h[0..4] == LE32(LocalSignature);
    assert h[4..6] == LE16(Version);
    ReadLE32OfLE32(LocalSignature);
    ReadLE16OfLE16(Version);
  }

  /** The bytes `CentralHeader` lays out after the shared fields. */
  lemma CentralHeaderBytes(name: seq<byte>, crc: nat, size: nat, offset: nat)
    ensures var h := CentralHeader(name, crc, size, offset);
      && h[0..4] == LE32(CentralSignature)
      && h[4..6] == LE16(Version) && h[6..8] == LE16(Version)
      && h[8..32] == SharedFields(name, crc, size)
      && h[32..34] == LE16(0) && h[34..36] == LE16(0) && h[36..38] == LE16(0)
      && h[38..42] == LE32(0)
      && h[42..46] == LE32(offset)
      && h[46..] == name
  {
  }

  /** A reader of the central header finds its signature, version 2.0 as
      both "made by" and "needed", the shared fields at offset 8, no
      comment, disk number or attributes, the offset of the local header
      (truncated to 32 bits) at 42, and the name at 46. */
  lemma CentralHeaderRead(name: seq<byte>, crc: nat, size: nat, offset: nat)
    ensures var h := CentralHeader(name, crc, size, offset);
      && ReadLE32(h[0..4]) == CentralSignature
      && ReadLE16(h[4..6]) == Version && ReadLE16(h[6..8]) == Version
      && h[8..32] == SharedFields(name, crc, size)
      && ReadLE16(h[32..34]) == 0 && ReadLE16(h[34..36]) == 0 && ReadLE16(h[36..38]) == 0
      && ReadLE32(h[38..42]) == 0
      && ReadLE32(h[42..46]) == offset % 0x1_0000_0000
      && h[46..] == name
  {
    CentralHeaderBytes(name, crc, size, offset);
    ReadLE32OfLE32(CentralSignature);
    ReadLE16OfLE16(Version);
    ReadLE16OfLE16(0);
    ReadLE32OfLE32(0);
    ReadLE32OfLE32(offset);
  }

  /** The bytes `EndRecord` lays out, field by field (`ev.setUint32(0, …)`
      to `ev.setUint16(20, 0, true)`). */
  lemma EndRecordBytes(count: nat, centralSize: nat, centralOffset: nat)
    ensures var h := EndRecord(count, centralSize, centralOffset);
      && h[0..4] == LE32(EndSignature)
      && h[4..6] == LE16(0) && h[6..8] == LE16(0)
      && h[8..10] == LE16(count) && h[10..12] == LE16(count)
      && h[12..16] == LE32(centralSize)
      && h[16..20] == LE32(centralOffset)
      && h[20..22] == LE16(0)
  {
  }

  /** A reader of the end record finds its signature, disk numbers 0, the
      entry count on this disk and in all, the directory's size and offset,
      each truncated to its width, and no comment. */
  lemma EndRecordRead(count: nat, centralSize: nat, centralOffset: nat)
    ensures var h := EndRecord(count, centralSize, centralOffset);
      && ReadLE32(h[0..4]) == EndSignature
      && ReadLE16(h[4..6]) == 0 && ReadLE16(h[6..8]) == 0
      && ReadLE16(h[8..10]) == count % 0x1_0000 && ReadLE16(h[10..12]) == count % 0x1_0000
      && ReadLE32(h[12..16]) == centralSize % 0x1_0000_0000
      && ReadLE32(h[16..20]) == centralOffset % 0x1_0000_0000
      && ReadLE16(h[20..22]) == 0
  {
    EndRecordBytes(count, centralSize, centralOffset);
    ReadLE32OfLE32(EndSignature);
    ReadLE16OfLE16(0);
    ReadLE16OfLE16(count);
    ReadLE32OfLE32(centralSize);
    ReadLE32OfLE32(centralOffset);
  }

  /** A slice of a slice. */
  lemma SubSlice(z: seq<byte>, a: nat, b: nat, h: seq<byte>, i: nat, j: nat)
    requires a <= b <= |z| && z[a..b] == h && i <= j <= |h|
    ensures z[a + i..a + j] == h[i..j]
  {
    assert forall m | a + i <= m < a + j :: z[m] == h[m - a];
  }

  // ---------------------------------------------------------------------
  // What a reader of the archive finds.
  // ---------------------------------------------------------------------

  /** What a reader finds in `z` where a local header of `name` and
      `data` and the data itself are laid out from `o`. */
  lemma LocalHeaderAt(z: seq<byte>, o: nat, name: seq<byte>, crc: nat, data: seq<byte>)
    requires o + 30 + |name| + |data| <= |z|
    requires z[o..o + 30 + |name|] == LocalHeader(name, crc, |data|)
    ensures ReadLE32(z[o..o + 4]) == LocalSignature
    ensures z[o + 6..o + 30] == SharedFields(name, crc, |data|)
    ensures z[o + 30..o + 30 + |name|] == name
  {
    var h := LocalHeader(name, crc, |data|);
    LocalHeaderRead(name, crc, |data|);
    SubSlice(z, o, o + 30 + |name|, h, 0, 4);
    SubSlice(z, o, o + 30 + |name|, h, 6, 30);
    SubSlice(z, o, o + 30 + |name|, h, 30, 30 + |name|);
    assert h[30..30 + |name|] == h[30..];
  }

  /** What a reader finds in `z` where a central header is laid out from
      `x`. */
  lemma CentralHeaderAt(z: seq<byte>, x: nat, name: seq<byte>, crc: nat, size: nat, offset: nat)
    requires x + 46 + |name| <= |z|
    requires z[x..x + 46 + |name|] == CentralHeader(name, crc, size, offset)
    ensures ReadLE32(z[x..x + 4]) == CentralSignature
    ensures z[x + 8..x + 32] == SharedFields(name, crc, size)
    ensures ReadLE32(z[x + 42..x + 46]) == offset % 0x1_0000_0000
    ensures z[x + 46..x + 46 + |name|] == name
  {
    var h := CentralHeader(name, crc, size, offset);
    CentralHeaderRead(name, crc, size, offset);
    SubSlice(z, x, x + 46 + |name|, h, 0, 4);
    SubSlice(z, x, x + 46 + |name|, h, 8, 32);
    SubSlice(z, x, x + 46 + |name|, h, 42, 46);
    SubSlice(z, x, x + 46 + |name|, h, 46, 46 + |name|);
    assert h[46..46 + |name|] == h[46..];
  }

  /** A reader that follows a central header's offset field (one that
      fits in 32 bits) to the local header laid out there finds the same
      checksum, sizes, flags and name in both. With `CentralRecordAt` and
      `EntryAt`, this holds of every entry of `Layout(es)` whose offset
      fits. */
  lemma FollowCentral(z: seq<byte>, x: nat, o: nat, name: seq<byte>, crc: nat, data: seq<byte>)
    requires x + 46 + |name| <= |z| && z[x..x + 46 + |name|] == CentralHeader(name, crc, |data|, o)
    requires o + 30 + |name| + |data| <= |z| && z[o..o + 30 + |name|] == LocalHeader(name, crc, |data|)
    requires o < 0x1_0000_0000
    ensures ReadLE32(z[x..x + 4]) == CentralSignature
    ensures ReadLE32(z[x + 42..x + 46]) == o
    ensures ReadLE32(z[o..o + 4]) == LocalSignature
    ensures z[o + 6..o + 30] == z[x + 8..x + 32] == SharedFields(name, crc, |data|)
    ensures z[o + 30..o + 30 + |name|] == z[x + 46..x + 46 + |name|] == name
  {
    CentralHeaderAt(z, x, name, crc, |data|, o);
    LocalHeaderAt(z, o, name, crc, data);
  }

  /** What a reader of `z` finds for a file with `name`, `data` and
      checksum `crc` whose central header is at `x`: the central
      signature, and in the offset field `o`; at `o` the local signature
      and, after the 30-byte header and the name, the data; and in both
      headers the same flags, sizes, checksum and name. */
  ghost predicate FoundAt(z: seq<byte>, x: nat, o: nat, name: seq<byte>, crc: nat, data: seq<byte>) {
    && x + 46 + |name| <= |z| && o + 30 + |name| + |data| <= |z|
    && ReadLE32(z[x..x + 4]) == CentralSignature
    && ReadLE32(z[x + 42..x + 46]) == o
    && ReadLE32(z[o..o + 4]) == LocalSignature
    && z[o + 30 + |name|..o + 30 + |name| + |data|] == data
    && z[o + 6..o + 30] == z[x + 8..x + 32] == SharedFields(name, crc, |data|)
    && z[o + 30..o + 30 + |name|] == z[x + 46..x + 46 + |name|] == name
  }

  /** In `z`, the central header of a file with `name`, `data` and
      checksum `crc` whose local header is at `o` is laid out at `x`, and
      its local header and data at `o`. */
  ghost predicate LaidOut(z: seq<byte>, x: nat, o: nat, name: seq<byte>, crc: nat, data: seq<byte>) {
    && x + 46 + |name| <= |z| && z[x..x + 46 + |name|] == CentralHeader(name, crc, |data|, o)
    && o + 30 + |name| + |data| <= |z| && z[o..o + 30 + |name|] == LocalHeader(name, crc, |data|)
    && z[o + 30 + |name|..o + 30 + |name| + |data|] == data
  }

  /** Laid-out headers and data are found by a reader that follows the
      offset field, when the offset fits in 32 bits. */
  lemma Follow(z: seq<byte>, x: nat, o: nat, name: seq<byte>, crc: nat, data: seq<byte>)
    requires LaidOut(z, x, o, name, crc, data) && o < 0x1_0000_0000
    ensures FoundAt(z, x, o, name, crc, data)
  {
    FollowCentral(z, x, o, name, crc, data);
  }

  /** Entry `k` of a layout, stored as `name`, `data` and `crc`, has its
      central header after the local section at its central offset, and
      its local header and data at its running offset. */
  lemma EntryLaidOut(es: seq<Stored>, k: nat, name: seq<byte>, data: seq<byte>, crc: nat) returns (x: nat, o: nat)
    requires k < |es| && es[k] == Stored(name, data, crc)
    ensures o == Offset(es, k) && x == |LocalSection(es)| + CentralOffset(es, k)
    ensures LaidOut(Layout(es), x, o, name, crc, data)
  {
    x := |LocalSection(es)| + CentralOffset(es, k);
    o := Offset(es, k);
    CentralRecordAt(es, k);
    EntryAt(es, k);
  }

  /** Entry `k` of a layout, stored as `name`, `data` and `crc`, is found
      from its central header when its offset fits in 32 bits. */
  lemma LayoutEntry(es: seq<Stored>, k: nat, name: seq<byte>, data: seq<byte>, crc: nat) returns (x: nat, o: nat)
    requires k < |es| && es[k] == Stored(name, data, crc)
    requires Offset(es, k) < 0x1_0000_0000
    ensures o == Offset(es, k)
    ensures FoundAt(Layout(es), x, o, name, crc, data)
  {
    x, o := EntryLaidOut(es, k, name, data, crc);
    Follow(Layout(es), x, o, name, crc, data);
  }

  /** Every file of the archive is found from its central header, and both
      its headers carry the CRC-32 of its own data, when its offset fits
      in 32 bits. */
  lemma ArchiveEntry(files: seq<Entry>, k: nat) returns (x: nat, o: nat)
    requires k < |files|
    requires Offset(Prepare(files), k) < 0x1_0000_0000
    ensures o == Offset(Prepare(files), k)
    ensures FoundAt(Archive(files), x, o, files[k].name, Crc(files[k].data), files[k].data)
  {
    x, o := LayoutEntry(Prepare(files), k, files[k].name, files[k].data, Crc(files[k].data));
  }

  /** The end record read back: one entry count per entry (on this disk
      and in all), the directory's size and its offset, which is where
      the local records end; each truncated to its width. */
  lemma EndRead(es: seq<Stored>, z: seq<byte>)
    requires z == Layout(es)
    ensures |z| >= 22
    ensures ReadLE32(z[|z| - 22..|z| - 18]) == EndSignature
    ensures ReadLE16(z[|z| - 18..|z| - 16]) == 0 && ReadLE16(z[|z| - 16..|z| - 14]) == 0
    ensures ReadLE16(z[|z| - 14..|z| - 12]) == |es| % 0x1_0000
    ensures ReadLE16(z[|z| - 12..|z| - 10]) == |es| % 0x1_0000
    ensures ReadLE32(z[|z| - 10..|z| - 6]) == CentralSpan(es, |es|) % 0x1_0000_0000
    ensures ReadLE32(z[|z| - 6..|z| - 2]) == LocalSpan(es, |es|) % 0x1_0000_0000
    ensures ReadLE16(z[|z| - 2..]) == 0
  {
    EndAt(es);
    SectionLengths(es);
    OffsetIsSpan(es, |es|);
    CentralOffsetIsSpan(es, |es|);
    EndRecordAt(z, |z| - 22, |es|, |Directory(es)|, |LocalSection(es)|);
  }

  /** What a reader finds in `z` where an end record is laid out from
      `a` to the end. */
  lemma EndRecordAt(z: seq<byte>, a: nat, count: nat, centralSize: nat, centralOffset: nat)
    requires a + 22 == |z| && z[a..] == EndRecord(count, centralSize, centralOffset)
    ensures ReadLE32(z[a..a + 4]) == EndSignature
    ensures ReadLE16(z[a + 4..a + 6]) == 0 && ReadLE16(z[a + 6..a + 8]) == 0
    ensures ReadLE16(z[a + 8..a + 10]) == count % 0x1_0000
    ensures ReadLE16(z[a + 10..a + 12]) == count % 0x1_0000
    ensures ReadLE32(z[a + 12..a + 16]) == centralSize % 0x1_0000_0000
    ensures ReadLE32(z[a + 16..a + 20]) == centralOffset % 0x1_0000_0000
    ensures ReadLE16(z[a + 20..]) == 0
  {
    var h := EndRecord(count, centralSize, centralOffset);
    EndRecordRead(count, centralSize, centralOffset);
    assert z[a..|z|] == z[a..];
    SubSlice(z, a, |z|, h, 0, 4);
    SubSlice(z, a, |z|, h, 4, 6);
    SubSlice(z, a, |z|, h, 6, 8);
    SubSlice(z, a, |z|, h, 8, 10);
    SubSlice(z, a, |z|, h, 10, 12);
    SubSlice(z, a, |z|, h, 12, 16);
    SubSlice(z, a, |z|, h, 16, 20);
    SubSlice(z, a, |z|, h, 20, 22);
    assert z[a + 20..|z|] == z[a + 20..];
  }
}
