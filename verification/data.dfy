/** Decoders for the payloads of the well-known boxes (data.go): file type,
    the full-box version/flags prefix, the movie/media header times, the
    track header and the packed ISO 639-2/T language code.

    Every decoder works on the payload bytes of one box, a slice with no
    spare capacity as readNBytesAt makes it. On such a slice an
    out-of-range slice expression in the Go code is a runtime panic; here
    each becomes a `requires` on the length of the payload. */
module BoxData {
  import opened Bytes

  /* ---------------------------------------------------------------- ftyp */

  /** The file type box (ISO/IEC 14496-12 section 4.3). */
  datatype FileType = FileType(
    majorBrand: FourCC,
    minorVersion: uint32,
    compatibleBrands: seq<FourCC>)

  /** ParseFtyp. The brand loop slices four bytes at every offset from 8 up
      to the end, so a trailing group shorter than four bytes panics when
      the payload has no spare capacity. */
  function ParseFtyp(data: seq<uint8>): (b: FileType)
    requires |data| >= 8
    requires (|data| - 8) % 4 == 0
    ensures b.majorBrand == data[..4]
    ensures b.minorVersion == BE32At(data, 4)
    ensures |b.compatibleBrands| == (|data| - 8) / 4
    ensures |data| == 8 ==> b.compatibleBrands == []
    ensures forall k :: 0 <= k < |b.compatibleBrands| ==>
              b.compatibleBrands[k] == data[8 + 4 * k .. 12 + 4 * k]
  {
    FileType(data[0..4], Uint32(data[4..8]), if |data| > 8 then BrandsFrom(data, 8) else [])
  }

  /** The brands collected by the loop `for i := start; i < len(data); i += 4`. */
  function BrandsFrom(data: seq<uint8>, start: nat): (brands: seq<FourCC>)
    requires start <= |data|
    requires (|data| - start) % 4 == 0
    ensures |brands| == (|data| - start) / 4
    ensures forall k :: 0 <= k < |brands| ==>
              brands[k] == data[start + 4 * k .. start + 4 * k + 4]
    decreases |data| - start
  {
    if start < |data| then [data[start..start + 4]] + BrandsFrom(data, start + 4)
    else []
  }

  /* ------------------------------------------------------ version, flags */

  /** The full-box prefix: one version byte and three opaque flag bytes. */
  datatype VersionFlags = VersionFlags(version: uint8, flags: seq<uint8>)

  /** parseVFlags */
  function ParseVersionFlags(data: seq<uint8>): (vf: VersionFlags)
    requires |data| >= 4
    ensures |vf.flags| == 3
    ensures [vf.version] + vf.flags == data[..4]
  {
    VersionFlags(data[0], data[1..4])
  }

  /* ---------------------------------------------------- mvhd/mdhd times */

  /** The creation/modification/timescale/duration block shared by mvhd and
      mdhd (ISO/IEC 14496-12 sections 8.2.2 and 8.4.2). */
  datatype Header = Header(
    creationTime: uint64,
    modificationTime: uint64,
    timescale: uint32,
    duration: uint64)

  /** Where the time block ends: 20 for version 0, 32 for every other
      version (the decoder does not single out version 1). */
  function HeaderEnd(version: uint8): (e: nat)
  {
    if version == 0 then 20 else 32
  }

  /** The bytes each time field of h is read from. Version 0 has four 32-bit
      fields at 4, 8, 12 and 16. Any other version lays out 8-byte creation,
      modification and duration fields at 4, 12 and 24 with a 4-byte
      timescale at 20, but each 8-byte field is read through a 32-bit
      decoder, which takes only its first (most significant) four bytes. */
  predicate TimesAt(h: Header, data: seq<uint8>, version: uint8)
    requires |data| >= HeaderEnd(version)
  {
    if version == 0 then
      && h.creationTime == BE32At(data, 4)
      && h.modificationTime == BE32At(data, 8)
      && h.timescale == BE32At(data, 12)
      && h.duration == BE32At(data, 16)
    else
      && h.creationTime == BE32At(data, 4)
      && h.modificationTime == BE32At(data, 12)
      && h.timescale == BE32At(data, 20)
      && h.duration == BE32At(data, 24)
  }

  /** parseHd: the time block and the offset of the first byte after it. */
  function ParseHeader(data: seq<uint8>, version: uint8): (r: (Header, nat))
    requires |data| >= HeaderEnd(version)
    ensures TimesAt(r.0, data, version)
    ensures r.1 == HeaderEnd(version) <= |data|
    ensures r.0.creationTime < Two32 && r.0.modificationTime < Two32 && r.0.duration < Two32
  {
    if version == 0 then
      (Header(
         Uint32(data[4..8]),
         Uint32(data[8..12]),
         Uint32(data[12..16]),
         Uint32(data[16..20])), 20)
    else
      Uint32OfSlice(data, 4, 12);
      Uint32OfSlice(data, 12, 20);
      Uint32OfSlice(data, 24, 32);
      (Header(
         Uint32(data[4..12]),
         Uint32(data[12..20]),
         Uint32(data[20..24]),
         Uint32(data[24..32])), 32)
  }

  /** The movie header box as far as it is decoded: prefix and times. */
  datatype MovieHeader = MovieHeader(vf: VersionFlags, hd: Header)

  /** ParseMvhd */
  function ParseMvhd(data: seq<uint8>): (m: MovieHeader)
    requires |data| >= 4 && |data| >= HeaderEnd(data[0])
    ensures m.vf.version == data[0] && m.vf.flags == data[1..4]
    ensures TimesAt(m.hd, data, data[0])
  {
    var vf := ParseVersionFlags(data);
    var (hd, _) := ParseHeader(data, vf.version);
    MovieHeader(vf, hd)
  }

  /* ---------------------------------------------------------------- tkhd */

  /** The track header box (ISO/IEC 14496-12 section 8.3.2). `reserved` is
      a field of the record that the decoder never assigns. */
  datatype TrackHeader = TrackHeader(
    vf: VersionFlags,
    creationTime: uint64,
    modificationTime: uint64,
    trackID: uint32,
    reserved: uint32,
    duration: uint64,
    width: uint32,
    height: uint32)

  /** The run of fields skipped between duration and width, as the decoder
      computes it: two 32-bit reserved words, layer, alternate group and
      volume, and a nine-word matrix. It leaves out the 16-bit reserved word
      that follows volume, so it is 50 bytes where the box has 52. */
  const TkhdSkip: nat := 4 * 2 + 2 + 2 + 2 + 4 * 9

  /** ParseTkhd. Width and height are read right after the skip, so the
      payload must reach 8 bytes past it: 82 bytes for version 0 and 94
      for any other version. */
  function ParseTkhd(data: seq<uint8>): (t: TrackHeader)
    requires |data| >= 4 && |data| >= (if data[0] == 0 then 82 else 94)
    ensures t.vf.version == data[0] && t.vf.flags == data[1..4]
    ensures t.reserved == 0
    ensures data[0] == 0 ==>
              && t.creationTime == BE32At(data, 4)
              && t.modificationTime == BE32At(data, 8)
              && t.trackID == BE32At(data, 12)
              && t.duration == BE32At(data, 20)
              && t.width == BE32At(data, 74)
              && t.height == BE32At(data, 78)
    ensures data[0] != 0 ==>
              && t.creationTime == BE64At(data, 4)
              && t.modificationTime == BE64At(data, 12)
              && t.trackID == BE32At(data, 20)
              && t.duration == BE64At(data, 28)
              && t.width == BE32At(data, 86)
              && t.height == BE32At(data, 90)
  {
    var vf := ParseVersionFlags(data);
    var (created, modified, trackID, duration, last) :=
      if vf.version == 0 then
        // bytes 16..20 are reserved
        (Uint32(data[4..8]) as uint64, Uint32(data[8..12]) as uint64, Uint32(data[12..16]),
         Uint32(data[20..24]) as uint64, 24)
      else
        // bytes 24..28 are reserved
        (Uint64(data[4..12]), Uint64(data[12..20]), Uint32(data[20..24]),
         Uint64(data[28..36]), 36);
    var at := last + TkhdSkip;
    assert vf.version != 0 ==> modified == BE64At(data, 12) by {
      if vf.version != 0 { Uint64OfSlice(data, 12, 20); }
    }
    TrackHeader(vf, created, modified, trackID, 0, duration,
                Uint32(data[at..at + 4]), Uint32(data[at + 4..at + 8]))
  }

  /* ---------------------------------------------------- language, mdhd */

  /** Go's uint8 arithmetic wraps around modulo 256. */
  function Wrap8(x: int): (v: uint8)
  {
    x % 0x100
  }

  /** A value that fits a byte is not changed by wrapping. */
  lemma Wrap8Small(x: int)
    requires 0 <= x < 0x100
    ensures Wrap8(x) == x
  {
  }

  /** decLang: one pad bit and three 5-bit letters, each stored as its
      code minus 0x60, unpacked from two bytes. The Go expression is
      evaluated in uint8 arithmetic (`>>k` is division by 2^k, `&3` and
      `&31` are remainders modulo 4 and 32, `<<3` is multiplication by 8);
      the contract shows that none of its additions wraps around. */
  function DecodeLanguage(data: seq<uint8>): (codes: seq<char>)
    requires |data| >= 2
    ensures |codes| == 3
    ensures codes[0] as int == data[0] / 4 + 0x60
    ensures codes[1] as int == (data[0] % 4) * 8 + data[1] / 32 + 0x60
    ensures codes[2] as int == data[1] % 32 + 0x60
    ensures 0x60 <= codes[1] as int < 0x80 && 0x60 <= codes[2] as int < 0x80
    ensures data[0] < 0x80 <==> 0x60 <= codes[0] as int < 0x80
  {
    Wrap8Small(data[0] / 4 + 0x60);
    Wrap8Small((data[0] % 4) * 8);
    Wrap8Small((data[0] % 4) * 8 + data[1] / 32);
    Wrap8Small((data[0] % 4) * 8 + data[1] / 32 + 0x60);
    Wrap8Small(data[1] % 32 + 0x60);
    var first := Wrap8(data[0] / 4 + 0x60);
    var second := Wrap8(Wrap8(Wrap8((data[0] % 4) * 8) + data[1] / 32) + 0x60);
    var third := Wrap8(data[1] % 32 + 0x60);
    [first as char, second as char, third as char]
  }

  /** The media header box: prefix, times and language. */
  datatype MediaHeader = MediaHeader(vf: VersionFlags, hd: Header, language: seq<char>)

  /** ParseMdhd. The language is decoded from the two bytes right after
      the time block, whose end depends on the version. */
  function ParseMdhd(data: seq<uint8>): (m: MediaHeader)
    requires |data| >= 4 && |data| >= HeaderEnd(data[0]) + 2
    ensures m.vf.version == data[0] && m.vf.flags == data[1..4]
    ensures TimesAt(m.hd, data, data[0])
    ensures data[0] == 0 ==> m.language == DecodeLanguage(data[20..22])
    ensures data[0] != 0 ==> m.language == DecodeLanguage(data[32..34])
  {
    var vf := ParseVersionFlags(data);
    var (hd, lastIdx) := ParseHeader(data, vf.version);
    MediaHeader(vf, hd, DecodeLanguage(data[lastIdx..]))
  }
}
