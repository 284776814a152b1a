# Image resizer: ZIP export, data URL decoding and upload admission

This project models, in Dafny, the non-visual core of the image resizer
component of EXTPIXEL (`components/ImageResizer.tsx`). It covers four parts:

- **CRC-32.** The lookup table `CRC32_TABLE` and the table-driven checksum
  `crc32` compute the reflected CRC-32 with polynomial 0xEDB88320. It is
  proved equal to the bitwise CRC without a table.
- **Data URLs.** `dataUrlToBytes` cuts a data URL after its first comma,
  decodes the rest with `atob`, and copies the character codes into a
  `Uint8Array`. `atob` is modelled as the "forgiving-base64 decode" algorithm
  of the WHATWG Infra Standard. It is proved to invert the canonical
  base64 of section 4 of RFC 4648, which `canvas.toDataURL` produces.
- **ZIP archives.** `createZipBlob` writes a stored, uncompressed ZIP
  archive in the layout of PKWARE's APPNOTE.TXT:
  - one local header followed by the data for every file;
  - then one central directory header per file;
  - then the end of central directory record.

  The imperative writer (`ZipWriter`) fills zero-filled arrays through
  setters the way `DataView` does. It keeps `localOffset`, `localParts` and
  `centralParts` as the loop does. It is proved to produce exactly the
  bytes of a layout function (`ZipFormat.Archive`). About that layout, the
  model proves:
  - the header lengths (30, 46 and 22 bytes);
  - the running-offset invariant;
  - the closed-form total length;
  - where every header and every file's data lies;
  - what a reader decodes from each field;
  - that a central header's offset field leads to a local header with the
    same checksum, sizes, flags and name.
- **Upload admission.** `addFiles` admits only `image/*` files. When at
  most ten uploads are held, it admits at most `10 - uploads.length` of
  them. It leaves the state alone when none is admitted. Otherwise it
  appends them after the existing uploads and clears the results.

Modules:
- `Bitwise`: `byte`, `u32`, XOR, shifts and masks on naturals.
- `Crc32`
- `LittleEndian`
- `Base64`
- `DataUrl`
- `ZipFormat`: the layout and the reader lemmas.
- `ZipWriter`: the imperative builder.
- `Uploads`

JavaScript 32-bit words are modelled as their unsigned readings (`u32`).
On those readings `^`, `>>>` and `& 0xff` are `Xor`, `Shr` and `Low`, and
the final `>>> 0` of `crc32` is the identity. `setUint16` and `setUint32`
store their argument modulo 2^16 and 2^32, and `LE16` and `LE32` do the
same. So the writer has no precondition. The reader lemmas state every
field as the value modulo its width.

## Model

| member | source | states |
|---|---|---|
| Crc32.ComputeEntry | components/ImageResizer.tsx:69-73 | the inner loop of the table initialiser returns eight conditional-XOR rounds applied to the index |
| Crc32.BuildTable | components/ImageResizer.tsx:67-77 | the table is a fresh array of 256 words, each entry eight rounds on its own index |
| Crc32.TableEntryFits | components/ImageResizer.tsx:69-74 | every table entry fits in 32 bits, so storing it in a `Uint32Array` loses nothing |
| Crc32.Checksum | components/ImageResizer.tsx:79-85 | `crc32` with the table: the result is `Crc(bytes)`, the register started at all ones, folded byte by byte through the table, then complemented |
| Crc32.RegisterFits | components/ImageResizer.tsx:80-83 | the register stays within 32 bits after any number of bytes |
| Crc32.CrcIsComplement | components/ImageResizer.tsx:84 | the final `^ 0xffffffff` is the 32-bit complement `0xFFFFFFFF - register` |
| Crc32.CrcOfEmpty | components/ImageResizer.tsx:79-85 | the checksum of no bytes is 0 |
| Crc32.StepIsEightRounds | components/ImageResizer.tsx:82 | one table lookup `table[(c ^ b) & 0xff] ^ (c >>> 8)` equals eight bitwise rounds on `c ^ b` |
| Crc32.TableDrivenIsBitwise | components/ImageResizer.tsx:67-85 | the table-driven register equals the bitwise CRC register (byte XORed in, eight rounds) on every input |
| LittleEndian.LE16Bytes | components/ImageResizer.tsx:113 | `setUint16(at, v, true)` writes `v % 256` then `(v / 256) % 256` |
| LittleEndian.LE32Bytes | components/ImageResizer.tsx:112 | `setUint32(at, v, true)` writes the four bytes of `v`, lowest first |
| LittleEndian.ReadLE16OfLE16 | components/ImageResizer.tsx:113 | reading back the two bytes `setUint16` writes gives the value modulo 2^16 |
| LittleEndian.ReadLE32OfLE32 | components/ImageResizer.tsx:112 | reading back the four bytes `setUint32` writes gives the value modulo 2^32 |
| LittleEndian.LE16OfReadLE16 | components/ImageResizer.tsx:113 | every two bytes are the little-endian encoding of the value they hold |
| LittleEndian.LE32OfReadLE32 | components/ImageResizer.tsx:112 | every four bytes are the little-endian encoding of the value they hold |
| Base64.CharOf | components/ImageResizer.tsx:90 | the character for a six-bit value is in the base64 alphabet and maps back to that value |
| Base64.CharOfSextet | components/ImageResizer.tsx:90 | the other direction of the alphabet bijection: every alphabet character is the character of its value |
| Base64.StripWhitespace | components/ImageResizer.tsx:90 | `atob` first drops ASCII whitespace: the result keeps every non-whitespace character and holds no whitespace |
| Base64.StripNothing | components/ImageResizer.tsx:90 | text without whitespace is left as it is |
| Base64.DropPadding | components/ImageResizer.tsx:90 | `atob` then removes at most two trailing characters, and only `=` |
| Base64.DecodeAcceptsBase64Text | components/ImageResizer.tsx:90 | when `atob` succeeds, the input held only alphabet characters, whitespace and `=`, and the output is no longer than the input |
| Base64.DecodeRejectsStrayCharacter | components/ImageResizer.tsx:90 | `atob` throws when the stripped length is of the form 4k+1 |
| Base64.Encode | components/ImageResizer.tsx:247 | the canonical base64 that `toDataURL` writes is a multiple of four long and holds only alphabet characters and `=` |
| Base64.SplitLength | components/ImageResizer.tsx:247 | the unpadded encoding of n bytes has length 0, 2 or 3 modulo 4 for n % 3 = 0, 1, 2, never the 4k+1 that the decoder refuses |
| Base64.SplitCountOf | components/ImageResizer.tsx:247 | 3q + r bytes give 4q values plus 0, 2 or 3 for the final r bytes |
| Base64.SplitRoundTrip | components/ImageResizer.tsx:90 | decoding the six-bit values of any bytes gives those bytes back |
| Base64.BodyRoundTrip | components/ImageResizer.tsx:90 | decoding the unpadded base64 text of any bytes gives those bytes back |
| Base64.DropsEncoderPadding | components/ImageResizer.tsx:90 | the decoder removes exactly the `=` padding the encoder adds |
| Base64.DecodeOfEncode | components/ImageResizer.tsx:90 | `atob` succeeds on the canonical base64 of any bytes and returns those bytes |
| DataUrl.IndexOf | components/ImageResizer.tsx:88 | `indexOf(',')` is -1 exactly when there is no comma; otherwise it is the position of the first comma |
| DataUrl.Payload | components/ImageResizer.tsx:88-89 | the payload is the whole URL when it has no comma; otherwise it is the text after the first comma |
| DataUrl.PayloadAfterHeader | components/ImageResizer.tsx:88-89 | for a header without a comma, the payload of `header + "," + body` is `body` |
| DataUrl.CharCodes | components/ImageResizer.tsx:91-94 | the copy loop returns a fresh array as long as the string, each entry the character code of that position cut to a byte |
| DataUrl.DataUrlToBytes | components/ImageResizer.tsx:87-96 | `dataUrlToBytes` fails exactly when `atob` throws on the payload; otherwise it returns a fresh array holding exactly the decoded payload bytes |
| DataUrl.DataUrlRoundTrip | components/ImageResizer.tsx:87-96 | a data URL whose header has no comma and whose payload is the canonical base64 of some bytes decodes to those bytes |
| ZipFormat.LocalHeaderInOrder | components/ImageResizer.tsx:110-123 | the local header is its fields in the order the source sets them, 30 bytes then the name |
| ZipFormat.CentralHeaderInOrder | components/ImageResizer.tsx:126-146 | the central header is its fields in the order the source sets them, 46 bytes then the name |
| ZipFormat.OffsetStep | components/ImageResizer.tsx:148 | the running offset grows by each file's 30 + name length + data length |
| ZipFormat.OffsetIsSpan | components/ImageResizer.tsx:102-148 | the offset of file k is the sum of 30 + name + data over the files before it |
| ZipFormat.CentralOffsetStep | components/ImageResizer.tsx:126-147 | each central header starts 46 + name length bytes after the previous one |
| ZipFormat.CentralOffsetIsSpan | components/ImageResizer.tsx:126-147 | the central offset of file k is the sum of 46 + name over the files before it |
| ZipFormat.SectionLengths | components/ImageResizer.tsx:148-150 | the local section is as long as the final `localOffset`, and the directory as long as `centralSize` |
| ZipFormat.LayoutLength | components/ImageResizer.tsx:163-170 | the archive's length is the sum of 30 + name + data, plus the sum of 46 + name, plus 22 |
| ZipFormat.ArchiveOfNothing | components/ImageResizer.tsx:98-171 | with no files the archive is the 22-byte end record with every count, size and offset 0 |
| ZipFormat.LocalRecordAt | components/ImageResizer.tsx:124 | file k's local record lies at its running offset in the archive |
| ZipFormat.EntryAt | components/ImageResizer.tsx:110-124 | file k's local header lies at its offset and its data right after it, at offset + 30 + name length |
| ZipFormat.CentralRecordAt | components/ImageResizer.tsx:126-147 | file k's central header lies after the local section, at its central offset |
| ZipFormat.EndAt | components/ImageResizer.tsx:151-161 | the archive ends with the end record |
| ZipFormat.SharedFieldsBytes | components/ImageResizer.tsx:114-123 | the 24 shared bytes, field by field: UTF-8 flag, method, time, date, CRC, two sizes, name length, extra length |
| ZipFormat.SharedFieldsRead | components/ImageResizer.tsx:114-123 | a reader finds flag 0x0800, stored method, zero time and date, the CRC and both sizes modulo 2^32, the name length modulo 2^16 and no extra field |
| ZipFormat.LocalHeaderRead | components/ImageResizer.tsx:110-123 | a reader of a local header finds signature 0x04034b50, version 20, the shared fields at 6 and the name at 30 |
| ZipFormat.CentralHeaderBytes | components/ImageResizer.tsx:126-146 | the bytes of the central header, field by field |
| ZipFormat.CentralHeaderRead | components/ImageResizer.tsx:126-146 | a reader of a central header finds signature 0x02014b50, versions 20 and 20, the shared fields at 8, zero comment, disk and attributes, the offset modulo 2^32 at 42 and the name at 46 |
| ZipFormat.EndRecordBytes | components/ImageResizer.tsx:151-161 | the bytes of the end record, field by field |
| ZipFormat.EndRecordRead | components/ImageResizer.tsx:151-161 | a reader of the end record finds signature 0x06054b50, disks 0, the entry count twice modulo 2^16, and the directory size and offset modulo 2^32 |
| ZipFormat.LocalHeaderAt | components/ImageResizer.tsx:110-124 | where a local header is laid out, a reader finds its signature, shared fields and name |
| ZipFormat.CentralHeaderAt | components/ImageResizer.tsx:126-147 | where a central header is laid out, a reader finds its signature, shared fields, offset field and name |
| ZipFormat.FollowCentral | components/ImageResizer.tsx:124-144 | following a central header's offset field (one below 2^32) leads to a local header with the same CRC, sizes, flags and name |
| ZipFormat.Follow | components/ImageResizer.tsx:110-147 | where both headers and the data of a file are laid out and the offset is below 2^32, a reader finds the central signature, the offset field leading to the local signature, the data after header and name, and the same shared fields and name in both headers |
| ZipFormat.EntryLaidOut | components/ImageResizer.tsx:105-148 | entry k's central header lies after the local section at its central offset, and its local header and data at its running offset |
| ZipFormat.LayoutEntry | components/ImageResizer.tsx:105-148 | every entry of the layout whose offset fits in 32 bits is found from its central header, at its running offset |
| ZipFormat.ArchiveEntry | components/ImageResizer.tsx:105-148 | every file of the archive whose offset fits in 32 bits is found from its central header: its offset field leads to its local header and then to its data, and both headers carry the CRC-32 of that data, its sizes and its name |
| ZipFormat.EndRead | components/ImageResizer.tsx:150-161 | the archive's end record holds disk numbers 0, the file count twice, the directory length and the local section length, each modulo its width, and no comment |
| ZipFormat.EndRecordAt | components/ImageResizer.tsx:151-161 | where an end record is laid out at the end, a reader finds its signature, disk numbers 0, both counts, the directory size and offset, and no comment |
| ZipWriter.SetUint16 | components/ImageResizer.tsx:113 | `setUint16` writes the two little-endian bytes of the value modulo 2^16 and changes nothing after them |
| ZipWriter.SetUint32 | components/ImageResizer.tsx:112 | `setUint32` writes the four little-endian bytes of the value modulo 2^32 and changes nothing after them |
| ZipWriter.SetBytes | components/ImageResizer.tsx:123 | `set(src, at)` copies `src` to `at` and changes nothing after it |
| ZipWriter.SetSharedFields | components/ImageResizer.tsx:114-122 | the nine setter calls shared by both headers write `SharedFields` |
| ZipWriter.WriteLocalHeader | components/ImageResizer.tsx:110-123 | the local header buffer holds exactly `LocalHeader(name, crc, size)` |
| ZipWriter.WriteCentralHeader | components/ImageResizer.tsx:126-146 | the central header buffer holds exactly `CentralHeader(name, crc, size, offset)` |
| ZipWriter.WriteEndRecord | components/ImageResizer.tsx:151-161 | the end record buffer holds exactly `EndRecord(count, centralSize, localOffset)` |
| ZipWriter.TotalLength | components/ImageResizer.tsx:150 | the `reduce` returns the total length of the central parts |
| ZipWriter.Assemble | components/ImageResizer.tsx:163-168 | the blob is the parts copied one after another |
| ZipWriter.CreateZip | components/ImageResizer.tsx:98-171 | `createZipBlob` returns exactly `Archive(files)`: its loop keeps the concatenated local parts, the central parts and `localOffset` equal to the layout's prefix up to the current file |
| Uploads.Images | components/ImageResizer.tsx:275 | the filter keeps every `image/` file and only those, each drawn from the input |
| Uploads.ImagesOfConcat | components/ImageResizer.tsx:275 | filtering a concatenation filters each part, so images keep their relative order |
| Uploads.SliceEnd | components/ImageResizer.tsx:277 | `slice(0, end)` keeps at most the whole list, and a negative end counts back from the end |
| Uploads.Admitted | components/ImageResizer.tsx:275-277 | the admitted files are a prefix of the images |
| Uploads.AddFiles | components/ImageResizer.tsx:274-287 | the existing uploads stay, in order, as a prefix of the new uploads |
| Uploads.AddsOnlyImages | components/ImageResizer.tsx:275-285 | the appended uploads are the leading images of the given files, each an image from those files |
| Uploads.AddsUpToRoom | components/ImageResizer.tsx:276-285 | with at most ten uploads, it appends as many images as fit: all when there is room, `10 - count` otherwise |
| Uploads.KeepsLimit | components/ImageResizer.tsx:276-285 | from at most ten uploads it never goes above ten |
| Uploads.UnchangedExactly | components/ImageResizer.tsx:278 | the session is unchanged exactly when no file is an image or the uploads are already full |
| Uploads.ClearsResultsWhenAdding | components/ImageResizer.tsx:286 | when anything is added, the previous results are cleared |
| Uploads.OverfullSlice | components/ImageResizer.tsx:276-277 | past ten uploads the room is negative and `slice` still admits all but the last `count - 10` images |

## Left out

- `TextEncoder.encode`: file names come in as their UTF-8 bytes (`ZipFormat.Entry.name`). UTF-8 encoding is not modelled.
- `Blob`, `URL.createObjectURL`, and the download: `createZipBlob` is modelled up to the byte sequence that goes into the blob.
- `CRC32_TABLE` is a module-level constant. The model builds it with `BuildTable` and passes it to `Checksum` and `CreateZip` under the precondition `IsTable`.
- `atob` is a browser builtin, so its source is not part of this model. It is modelled as the WHATWG forgiving-base64 decode. Its `InvalidCharacterError` is `None`.
- `DataUrl.DataUrlToBytes`: JavaScript strings are UTF-16. `atob` only yields codes below 256, so the `Uint8Array` store's truncation (`% 256`) is stated in `CharCodes`, but never changes a value.
- Canvas drawing, resizing, cropping, previews, the React component, its state hooks and the UI are left out. So are `loadImg` and the code in `lib/`.
- `Uploads.AddFiles`: the `id` built from `Date.now()` and `Math.random()` and the `preview` object URL of each upload are left out. An upload is modelled as its file.
- `Uploads.AddFiles`: `uploads.length` is read from the closure that `useCallback` captured. The model reads it from the same session it updates. A stale closure over an outdated length is not modelled.
- ZIP limits: names of 2^16 bytes or more, files or offsets of 2^32 or more, and 2^16 files or more are stored truncated, as `DataView` does. Nothing is assumed about sizes. Consequently `ZipFormat.FollowCentral` requires the offset to be below 2^32, since a truncated offset points elsewhere.
- ZipFormat: no lemma walks the whole central directory in one pass, from the end record through every central header in turn. `EndRead` reads the end record, and `ArchiveEntry` finds each file from its central header, one file at a time.
