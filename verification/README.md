# gomp4 box reader in Dafny

A model of the core of gomp4, a small Go reader for ISO Base Media File
Format (MP4) files (ISO/IEC 14496-12). It covers two parts:

- The top-level box walk (`reader.go`). It reads the 8-byte box header
  (32-bit big-endian size, then a four-character type) and derives the
  payload offset and size. It then walks the boxes end to end from offset
  0 until the cursor reaches the end of the source.
- The per-box payload decoders (`data.go`):
  - `ftyp`: major brand, minor version and compatible brands;
  - the full-box version/flags prefix;
  - the version-dependent creation/modification/timescale/duration block
    of `mvhd` and `mdhd`;
  - `tkhd`;
  - the packed ISO 639-2/T language code of `mdhd`.

The file is replaced by an immutable byte sequence. Bytes, 32-bit and
64-bit values are subset types of `int`. A Go runtime panic, such as an
out-of-range slice or a `make` with a negative length, becomes a
`requires` on the caller. Payloads are sequences whose capacity equals
their length (see "## Left out").

Modules, one per file:

- `Bytes` (`bytes.dfy`): `encoding/binary.BigEndian.Uint32`/`Uint64` as Go
  computes them. Also a general big-endian codec with its two round trips,
  and the 4- and 8-byte encoders used to build test payloads.
- `BoxData` (`data.dfy`): the decoders of `data.go`. Each contract states
  which bytes every field comes from.
- `Standard` (`standard.dfy`): reference decoders for the time block and
  `tkhd` as ISO/IEC 14496-12 sections 8.2.2, 8.3.2 and 8.4.2 lay them
  out. It also holds the exact relation between the reference decoders
  and the `data.go` decoders.
- `DataProperties` (`data_properties.dfy`): encoders for each record, and
  the round trips that pin the decoders down.
- `Reader` (`reader.dfy`): the reads and the walk.
  - `Source` is an `io.ReaderAt` over a byte sequence. Its `eofAtEnd` flag
    chooses how a read that exactly fills the buffer at the end of the
    input reports itself: `io.ReaderAt` allows either `io.EOF` or no error.
  - `ReadAt` is one such read. `ReadNBytesAt`, `ReadBox`, `Parse` (via
    `WalkFrom`) and `ReadBoxData` are the four functions of `reader.go`.
  - `HeaderAt` is the header decoded straight from the bytes, and `ReadBox`
    is proved equal to it. So `WalkFrom` steps with `HeaderAt`, which gives
    what `readBox` returns.
  - The outcome of `parse` is a `Walk`:
    - `Complete`: returned with no error;
    - `Failed`: returned with an error, keeping the boxes found before it;
    - `Diverges`: the loop never ends, because a box inside the source has
      size 0.
  - Each outcome has an if-and-only-if characterisation in terms of the
    boxes: they tile the source from 0, each is the header decoded at its
    offset, and each has its own stop condition.
- `ReaderProperties` (`reader_properties.dfy`): what `parse` does on
  sources built from boxes:
  - it finds them back in file order;
  - a trailing partial header is an error that keeps the boxes;
  - a last box that overshoots the source is accepted;
  - a zero size loops;
  - an undersized box is accepted;
  - each box's data reads back as its payload.

Behaviours of the code worth stating explicitly:

- A trailing brand group of fewer than four bytes in `ftyp` is not
  dropped. The slice `data[i:i+4]` panics when the payload has no spare
  capacity, as every payload `ReadBoxData` returns, so the model requires
  `(|data| - 8) % 4 == 0`.
- No box is rejected for a size field below 8. Such a box is recorded
  with a negative `DataSize`, and the next header is read inside it.
- `parse` always reads a header at offset 0. So an empty source (or one
  shorter than 8 bytes) fails with a wrapped EOF; it does not give an
  empty list.

Two behaviours contradict the code's own comments:

- The `tkhd` width and height are read 50 bytes after the time fields.
  The field list in the comment at data.go:173-178 adds up to 52 bytes,
  because it includes a 16-bit reserved word after volume.
- Every non-zero version takes the 64-bit layout of the time block. Each
  of its 8-byte fields is read with `Uint32`, which keeps only the high 4
  bytes, although data.go:81 describes the fields as "32 or 64 bits".

## Model

| member | source | states |
|---|---|---|
| Bytes.Uint32IsBigEndian | data.go:59 | `binary.BigEndian.Uint32` is the big-endian value of the first four bytes and ignores any bytes after them |
| Bytes.Uint64IsBigEndian | data.go:165-169 | `binary.BigEndian.Uint64` is the big-endian value of the first eight bytes |
| Bytes.Uint32IsHighHalf | data.go:97-100 | `Uint32` applied to an 8-byte field yields that field's 64-bit value divided by 2^32 |
| Bytes.BigEndianOfToBigEndian | data.go:59 | decoding a k-byte big-endian encoding gives back the value |
| Bytes.ToBigEndianOfBigEndian | data.go:59 | encoding the decoded value of a byte string gives back the string |
| Bytes.Encode32OfUint32 | data.go:59 | four bytes are the 32-bit encoding of the value read from them |
| BoxData.ParseFtyp | data.go:56-65 | the major brand is bytes 0..4 and the minor version the big-endian word at 4; there are (n-8)/4 compatible brands, brand k is bytes 8+4k..12+4k, and the list is empty for an 8-byte payload; a payload under 8 bytes or with a partial last group is outside the precondition |
| BoxData.BrandsFrom | data.go:60-64 | the loop from `start` in steps of 4 collects one brand per 4-byte group, in order |
| BoxData.ParseVersionFlags | data.go:73-78 | version and flags are exactly the first four bytes: one version byte, then three flag bytes |
| BoxData.ParseHeader | data.go:87-102 | version 0 reads four 32-bit fields at 4, 8, 12, 16 and returns 20; any other version reads the 32-bit words at 4, 12, 20, 24 and returns 32; creation, modification and duration are always below 2^32 |
| BoxData.ParseMvhd | data.go:123-127 | the version/flags prefix, then the time block laid out for the payload's own version |
| BoxData.ParseTkhd | data.go:152-184 | version 0: 32-bit times and track ID at 4, 8, 12, 20, with width and height at 74 and 78; other versions: 64-bit times at 4, 12 and 28, track ID at 20, and width and height at 86 and 90; the payload must reach 82 or 94 bytes |
| BoxData.DecodeLanguage | data.go:216-225 | three characters: data[0]/4 + 0x60, (data[0] mod 4)·8 + data[1]/32 + 0x60, and data[1] mod 32 + 0x60; no uint8 sum wraps; the last two are in 0x60..0x7F, and the first is too exactly when the pad bit is clear |
| BoxData.ParseMdhd | data.go:228-234 | the prefix and time block as in ParseHeader, and the language decoded from bytes 20..22 (version 0) or 32..34 (any other version) |
| Standard.HeaderAgainstStandard | data.go:96-101 | version 0 agrees with the standard layout; version 1 keeps the standard timescale, and its creation, modification and duration are the standard 64-bit values divided by 2^32 |
| Standard.HeaderDropsLowWord | data.go:97 | a version 1 header whose 64-bit creation time is 1 is decoded with creation time 0 |
| Standard.TkhdAgainstStandard | data.go:172-182 | the decoder agrees with the standard tkhd on times and track ID; its width is the low half of the last matrix word followed by the high half of the true width, and its height is the low half of the true width followed by the high half of the true height |
| DataProperties.FtypRoundTrip | data.go:56-65 | decoding an encoded file type gives back the major brand, minor version and every compatible brand |
| DataProperties.FtypBytesRoundTrip | data.go:56-65 | re-encoding a decoded payload of whole 4-byte groups gives back the payload: no byte is lost |
| DataProperties.PackLanguage | data.go:206-215 | the two packed bytes have the pad bit clear and hold the three 5-bit codes as one 15-bit big-endian value |
| DataProperties.LanguageRoundTrip | data.go:216-225 | decoding the packing of three 5-bit codes gives each code plus 0x60 |
| DataProperties.LanguageBytesRoundTrip | data.go:216-225 | with the pad bit clear, packing the decoded letters gives back the two bytes |
| DataProperties.LanguageEnglish | data.go:216-225 | "eng" packs to 0x15C7, and 0x15C7 decodes to "eng" |
| DataProperties.TimesV0 | data.go:88-94 | a version 0 time block written with 32-bit fields is read back exactly |
| DataProperties.TimesV1 | data.go:96-101 | a standard version 1 time block is read back as its timescale, with the other three fields cut to their high 32 bits |
| DataProperties.MdhdRoundTrip | data.go:228-234 | for both layouts, an encoded mdhd decodes to its version/flags and language; version 0 gives its times back, and version 1 gives them cut to their high 32 bits |
| DataProperties.StandardTimesRoundTrip | data.go:80-85 | the standard reading of a time block gives back every field, keeping all 64 bits in version 1 |
| DataProperties.StandardTkhdRoundTrip | data.go:172-179 | the standard reading of a standard tkhd gives back times, track ID, matrix, width and height |
| DataProperties.TkhdOfStandard | data.go:152-184 | the tkhd decoder on a standard tkhd returns the prefix, times and track ID unchanged; its width and height each straddle two 16.16 fields |
| DataProperties.TkhdFractionalWidth | data.go:180-182 | a 320.5 by 240 track with the identity matrix decodes as width 320 and height 0x800000F0 |
| Reader.ReadAt | reader.go:44 | the read copies at most n bytes, all from the source at offset, and fills the buffer exactly when offset+n fits the source; a short read says EOF |
| Reader.ReadNBytesAt | reader.go:42-51 | the buffer always has n bytes; the error is nil exactly when n is 0 or offset+n fits the source, and then the buffer is the source's bytes offset..offset+n; a full read reported with EOF counts as a success; a short read keeps EOF and the bytes read so far, followed by zeros; a read starting past the end gives n zero bytes |
| Reader.HeaderAt | reader.go:53-62 | a header is decoded exactly when 8 bytes fit at offset, and it is the box Decoded at offset; otherwise the error is EOF wrapped with the offset |
| Reader.ReadBox | reader.go:63-78 | readBox returns the header decoded at offset: size is the big-endian word there, type the next four bytes, DataOffset is offset+8 and DataSize is size-8 (negative for a size below 8); when fewer than 8 bytes remain it returns EOF wrapped with the offset |
| Reader.HeaderAtDecoded | reader.go:63-78 | the box read at b.at is b exactly when b is Decoded there |
| Reader.WalkFrom | reader.go:86-97 | the first box recorded from a cursor is at that cursor, and a walk that does not fail records at least one box |
| Reader.WalkFromStep | reader.go:86-97 | one turn of the loop: a box read at the cursor with non-zero size that ends inside the source is followed by the walk from its end |
| Reader.WalkFromLast | reader.go:93-96 | a box that reaches or passes the end of the source ends the loop with no error |
| Reader.WalkFromZeroSize | reader.go:93-96 | a box of size 0 inside the source never moves the cursor |
| Reader.WalkFromShort | reader.go:87-90 | when no header fits at the cursor, the loop returns the wrapped EOF |
| Reader.WalkFromTiles | reader.go:86-97 | the recorded boxes start at the cursor, each later box starts where the previous one ends, and each is the header decoded at its offset |
| Reader.WalkFromCompletes | reader.go:93-96 | in a completed walk every box but the last has a non-zero size and ends inside the source, and the last reaches or passes the end |
| Reader.WalkFromFails | reader.go:87-90 | in a failed walk every box has a non-zero size and ends inside the source, no header fits after them, and the error is the EOF wrapped with that offset |
| Reader.WalkFromDiverges | reader.go:93-96 | in a diverging walk the last box has size 0 and lies inside the source, and every box before it has a non-zero size and ends inside the source |
| Reader.CompleteChain | reader.go:86-97 | a tiled chain of decoded headers whose inner boxes have non-zero size and whose last box reaches the end is what the walk returns |
| Reader.FailedChain | reader.go:86-97 | a tiled chain of decoded inner headers with no room for a header after it is what the walk keeps before failing |
| Reader.DivergesChain | reader.go:86-97 | a tiled chain that reaches a zero-size header inside the source makes the walk loop |
| Reader.Parse | reader.go:80-100 | parse always reads at 0: a source under 8 bytes, the empty one included, fails with EOF wrapped at offset 0; unless it fails it records at least one box |
| Reader.ParseTiles | reader.go:80-100 | whatever the outcome, the first box is at 0, each box starts where the previous one ends, and each is the header decoded at its offset |
| Reader.ParseComplete | reader.go:80-100 | parse returns boxes with no error if and only if they tile the source from 0, each is the header at its offset, all but the last have non-zero size and end inside the source, and the last reaches or passes the end |
| Reader.ParseFailed | reader.go:80-100 | parse returns an error if and only if the boxes it keeps tile the source from 0 and are decoded and inner, and no header fits after them; the error is EOF wrapped with that offset |
| Reader.ParseDiverges | reader.go:80-100 | parse never returns if and only if the chain from 0 reaches, inside the source, a header with size 0 |
| Reader.ReadBoxData | reader.go:37-39 | a box's data has DataSize bytes; it is read without error exactly when the box lies within the source (or has no data), and then it is the source's bytes At+8..At+Size |
| ReaderProperties.DecodedHeader | reader.go:53-62 | a header written with size s and type t at offset is Decoded there as the box of that size and type |
| ReaderProperties.ReadBoxOfHeader | reader.go:63-78 | readBox returns the box whose header was written at offset |
| ReaderProperties.LayoutChain | reader.go:86-97 | the boxes of a serialized run tile it, each is its decoded header with non-zero size, and the chain ends where the run ends |
| ReaderProperties.ParseSerialized | reader.go:80-100 | parsing boxes written end to end finds exactly those boxes, in file order, with no error |
| ReaderProperties.ParseSerializedThenShort | reader.go:87-90 | boxes followed by 1 to 7 extra bytes: parse fails reading there and keeps every box before |
| ReaderProperties.ParseSerializedThenOvershoot | reader.go:93-96 | boxes followed by a header whose size runs past the end: that box is recorded, parse returns no error, and the overshoot is not reported |
| ReaderProperties.ZeroSizeDiverges | reader.go:93-96 | a first header of size 0 makes parse loop on that box |
| ReaderProperties.UndersizedBoxAccepted | reader.go:69-76 | a box with size field 4 is recorded with DataSize -4, and the next header is read from inside it |
| ReaderProperties.ReadBoxDataSerialized | reader.go:37-39 | the data of every box of a serialized source, wherever the run sits in the source, is read back as that box's payload with no error |
| ReaderProperties.ParseInFileOrder | reader.go:92-93 | boxes of a completed parse have strictly increasing offsets |

## Left out

- `Open` (reader.go:103-122): opening and sizing a file. The model takes the bytes of the source directly. Their length is the size `parse` compares against.
- Every `Repr` method and `dataStr` (data.go:27-32, 47-53, 114-120, 143-149, 197-204; reader.go:24-26): output formatting only.
- handler.go and cmd/main.go: tree printing and the command line. handler.go also uses names that are not part of this model (`Depth`, `DataRange`, `BoxReader`), so they are not modelled.
- Nested boxes, container types and extended sizes (a size of 1 meaning a 64-bit size, or 0 meaning to the end of the file): the code does not interpret any of them.
- I/O errors other than running out of data: a `Source` never fails except with `io.EOF`, so permission or device errors from the file are not modelled.
- Go's int64 arithmetic on offsets: offsets are unbounded `nat`s. Before `pivot += b.Size`, pivot is at most the size minus 8 and `b.Size` at most 2^32 - 1, so the sum cannot overflow for any file smaller than 2^63 - 2^32 bytes. For a longer file, pivot could wrap to a negative offset. `readBox` would then fail with the file's negative-offset error, while `Reader.WalkFrom` returns `Complete` with that box, where Go returns the error.
- The aliasing of `Flags` to the input slice (data.go:76): flags are a plain 3-byte value.
- Go runtime panics are preconditions, not error values. This covers:
  - short payloads in every decoder, which panic when the slice has no spare capacity;
  - a partial trailing `ftyp` group, which panics under the same condition;
  - a negative `DataSize` in `ReadBoxData`.
- Slice capacity: payloads are sequences whose capacity equals their length, as `ReadBoxData` returns them (`make([]byte, n)` in readNBytesAt, reader.go:42). Go checks a slice expression's upper bound against the capacity, not the length. So a caller's sub-slice with spare capacity would be read past its length instead of panicking. For example, `ParseFtyp` on a 10-byte slice of capacity 12 returns a compatible brand made of 2 payload bytes and 2 bytes beyond them. The model does not cover such calls.
- The box type and brands are kept as their four raw bytes rather than as Go strings, and the language as `char`s in place of runes. The conversions are byte-for-byte.
- Reader.Parse: the infinite loop on a zero size is the `Diverges` outcome. It holds the boxes up to the first copy of the zero-size box rather than the unbounded list that Go keeps appending to.
- `MP4Reader.Boxes` accumulating across calls: `parse` is called once, on a fresh reader, so the model returns the list it builds.

## Findings

`BoxData` keeps both decoders as written, since it models the code. The `Standard` module holds the corrected readings. The round trips in `DataProperties` prove those readings give back every field.

| source | as written | input that shows it | evidently intended | confidence | as-written member | corrected member |
|---|---|---|---|---|---|---|
| data.go:96-101 | a non-zero version reads each 8-byte time field with `binary.BigEndian.Uint32`, keeping only its high four bytes | version 1, creation field (bytes 4..12) = 00 00 00 00 00 00 00 01: the standard value is 1, the decoded value is 0 | read the 8-byte fields with `binary.BigEndian.Uint64`, as the `uint64` fields and their "32 or 64 bits" comment say | high; not executed | Standard.HeaderDropsLowWord | DataProperties.StandardTimesRoundTrip |
| data.go:180-182 | the skip after the duration is 4*2+2+2+2+4*9 = 50 bytes; it leaves out the 16-bit reserved field after volume that the comment at data.go:176 lists | version 0 tkhd with the identity matrix, width 0x01408000 (320.5) and height 0x00F00000 (240): decoded width 320, height 0x800000F0 | skip 52 bytes and read width and height at last+52 and last+56 | medium: for the usual matrix and whole-pixel sizes the early read happens to give the integer parts; not executed | DataProperties.TkhdFractionalWidth | DataProperties.StandardTkhdRoundTrip |
