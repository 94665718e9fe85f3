/** Encoders for the decoded records and the round trips that pin the
    decoders of data.go down: what is written at the documented offsets is
    what the decoder reads back. */
module DataProperties {
  import opened Bytes
  import opened BoxData
  import Standard

  /* ---------------------------------------------------------------- ftyp */

  /** The brands one after another. */
  function Concat(brands: seq<FourCC>): (s: seq<uint8>)
    ensures |s| == 4 * |brands|
  {
    if brands == [] then [] else brands[0] + Concat(brands[1..])
  }

  lemma {:induction false} ConcatAt(brands: seq<FourCC>, k: nat)
    requires k < |brands|
    ensures Concat(brands)[4 * k..4 * k + 4] == brands[k]
  {
    if k > 0 {
      ConcatAt(brands[1..], k - 1);
      assert Concat(brands)[4..] == Concat(brands[1..]);
    }
  }

  /** The ftyp payload of a file type record. */
  function EncodeFtyp(f: FileType): (data: seq<uint8>)
    ensures |data| == 8 + 4 * |f.compatibleBrands|
  {
    f.majorBrand + Encode32(f.minorVersion) + Concat(f.compatibleBrands)
  }

  /** ParseFtyp reads back every field, the whole brand list included. */
  lemma FtypRoundTrip(f: FileType)
    ensures ParseFtyp(EncodeFtyp(f)) == f
  {
    var data := EncodeFtyp(f);
    var g := ParseFtyp(data);
    assert data[4..8] == Encode32(f.minorVersion);
    BE32AtEncoded(data, 4, f.minorVersion);
    forall k | 0 <= k < |f.compatibleBrands|
      ensures g.compatibleBrands[k] == f.compatibleBrands[k]
    {
      ConcatAt(f.compatibleBrands, k);
      assert data[8 + 4 * k..12 + 4 * k] == Concat(f.compatibleBrands)[4 * k..4 * k + 4];
    }
  }

  /** The brand list of a payload is a lossless view of its bytes. */
  lemma FtypBytesRoundTrip(data: seq<uint8>)
    requires |data| >= 8 && (|data| - 8) % 4 == 0
    ensures EncodeFtyp(ParseFtyp(data)) == data
  {
    var f := ParseFtyp(data);
    var enc := EncodeFtyp(f);
    Encode32OfUint32(data[4..8]);
    forall k | 8 <= k < |data|
      ensures enc[k] == data[k]
    {
      var j := (k - 8) / 4;
      assert 8 + 4 * j <= k < 12 + 4 * j;
      ConcatAt(f.compatibleBrands, j);
      assert enc[8 + 4 * j..12 + 4 * j] == f.compatibleBrands[j] == data[8 + 4 * j..12 + 4 * j];
      assert enc[k] == enc[8 + 4 * j..12 + 4 * j][k - 8 - 4 * j];
      assert data[k] == data[8 + 4 * j..12 + 4 * j][k - 8 - 4 * j];
    }
    assert enc[..8] == data[..8];
  }

  /* ------------------------------------------------------- mdhd, lang */

  /** The two-byte packing of a language: pad bit 0, then the three 5-bit
      letter codes. */
  function PackLanguage(a: nat, b: nat, c: nat): (bytes: seq<uint8>)
    requires a < 32 && b < 32 && c < 32
    ensures |bytes| == 2 && bytes[0] < 0x80
    ensures bytes[0] as int * 0x100 + bytes[1] == a * 0x400 + b * 0x20 + c
  {
    var packed := a * 0x400 + b * 0x20 + c;
    [packed / 0x100, packed % 0x100]
  }

  /** Decoding a packed language gives back each letter as code + 0x60. */
  lemma LanguageRoundTrip(a: nat, b: nat, c: nat)
    requires a < 32 && b < 32 && c < 32
    ensures DecodeLanguage(PackLanguage(a, b, c)) ==
              [(a + 0x60) as char, (b + 0x60) as char, (c + 0x60) as char]
  {
    var bytes := PackLanguage(a, b, c);
    assert bytes[0] == a * 4 + b / 8;
    assert bytes[1] == (b % 8) * 32 + c;
  }

  /** With the pad bit clear, packing the decoded letters gives back the
      two bytes: the language code loses nothing. */
  lemma LanguageBytesRoundTrip(data: seq<uint8>)
    requires |data| == 2 && data[0] < 0x80
    ensures var codes := DecodeLanguage(data);
            PackLanguage(codes[0] as int - 0x60, codes[1] as int - 0x60, codes[2] as int - 0x60) == data
  {
    var codes := DecodeLanguage(data);
    var packed := data[0] as int * 0x100 + data[1];
    assert (codes[0] as int - 0x60) * 0x400 + (codes[1] as int - 0x60) * 0x20 + (codes[2] as int - 0x60)
           == packed;
  }

  /** The code for English. */
  lemma LanguageEnglish()
    ensures PackLanguage(5, 14, 7) == [0x15, 0xC7]
    ensures DecodeLanguage([0x15, 0xC7]) == "eng"
  {
    LanguageRoundTrip(5, 14, 7);
  }

  /** The standard layout of an mdhd time block for version 0 or 1. */
  function EncodeTimes(version: uint8, h: Header): (s: seq<uint8>)
    requires version == 0 || version == 1
    requires version == 0 ==> h.creationTime < Two32 && h.modificationTime < Two32 && h.duration < Two32
    ensures |s| == HeaderEnd(version) - 4
  {
    if version == 0 then
      Encode32(h.creationTime) + Encode32(h.modificationTime) + Encode32(h.timescale) + Encode32(h.duration)
    else
      Encode64(h.creationTime) + Encode64(h.modificationTime) + Encode32(h.timescale) + Encode64(h.duration)
  }

  /** An mdhd payload: version, flags, times and packed language. */
  function EncodeMdhd(version: uint8, flags: seq<uint8>, h: Header, a: nat, b: nat, c: nat): (s: seq<uint8>)
    requires version == 0 || version == 1
    requires version == 0 ==> h.creationTime < Two32 && h.modificationTime < Two32 && h.duration < Two32
    requires |flags| == 3 && a < 32 && b < 32 && c < 32
    ensures |s| == HeaderEnd(version) + 2
  {
    [version] + flags + EncodeTimes(version, h) + PackLanguage(a, b, c)
  }

  /** The decoder finds the language right after the version-dependent
      time block: both layouts give back the three letters. Version 0
      gives back the times as well; version 1 gives the standard values
      cut to their high 32 bits. */
  lemma MdhdRoundTrip(version: uint8, flags: seq<uint8>, h: Header, a: nat, b: nat, c: nat)
    requires version == 0 || version == 1
    requires version == 0 ==> h.creationTime < Two32 && h.modificationTime < Two32 && h.duration < Two32
    requires |flags| == 3 && a < 32 && b < 32 && c < 32
    ensures var m := ParseMdhd(EncodeMdhd(version, flags, h, a, b, c));
            && m.vf == VersionFlags(version, flags)
            && m.language == [(a + 0x60) as char, (b + 0x60) as char, (c + 0x60) as char]
            && (version == 0 ==> m.hd == h)
            && (version == 1 ==> m.hd == Header(h.creationTime / Two32, h.modificationTime / Two32,
                                                 h.timescale, h.duration / Two32))
  {
    var data := EncodeMdhd(version, flags, h, a, b, c);
    var e := HeaderEnd(version);
    var times := EncodeTimes(version, h);
    assert data == [version] + flags + times + PackLanguage(a, b, c);
    assert data[e..e + 2] == PackLanguage(a, b, c);
    assert data[4..e] == times;
    LanguageRoundTrip(a, b, c);
    if version == 0 {
      TimesV0(data, h);
    } else {
      TimesV1(data, h);
    }
  }

  lemma TimesV0(data: seq<uint8>, h: Header)
    requires h.creationTime < Two32 && h.modificationTime < Two32 && h.duration < Two32
    requires |data| >= 20 && data[4..20] == EncodeTimes(0, h)
    ensures ParseHeader(data, 0).0 == h
  {
    var e0, e1, e2, e3 := Encode32(h.creationTime), Encode32(h.modificationTime),
                          Encode32(h.timescale), Encode32(h.duration);
    Pieces(data[4..20], e0, e1, e2, e3);
    SubSlice(data, 4, 20, 0, 4);
    SubSlice(data, 4, 20, 4, 8);
    SubSlice(data, 4, 20, 8, 12);
    SubSlice(data, 4, 20, 12, 16);
    BE32AtEncoded(data, 4, h.creationTime);
    BE32AtEncoded(data, 8, h.modificationTime);
    BE32AtEncoded(data, 12, h.timescale);
    BE32AtEncoded(data, 16, h.duration);
  }

  lemma TimesV1(data: seq<uint8>, h: Header)
    requires |data| >= 32 && data[4..32] == EncodeTimes(1, h)
    ensures ParseHeader(data, 1).0 ==
              Header(h.creationTime / Two32, h.modificationTime / Two32, h.timescale, h.duration / Two32)
  {
    TimesV1Fields(data, h);
    Standard.HeaderAgainstStandard(data, 1);
  }

  /** Each field of a version 1 time block sits at its standard offset. */
  lemma TimesV1Fields(data: seq<uint8>, h: Header)
    requires |data| >= 32 && data[4..32] == EncodeTimes(1, h)
    ensures BE64At(data, 4) == h.creationTime && BE64At(data, 12) == h.modificationTime
    ensures BE32At(data, 20) == h.timescale && BE64At(data, 24) == h.duration
  {
    var e0, e1, e2, e3 := Encode64(h.creationTime), Encode64(h.modificationTime),
                          Encode32(h.timescale), Encode64(h.duration);
    Pieces(data[4..32], e0, e1, e2, e3);
    SubSlice(data, 4, 32, 0, 8);
    SubSlice(data, 4, 32, 8, 16);
    SubSlice(data, 4, 32, 16, 20);
    SubSlice(data, 4, 32, 20, 28);
    BE64AtEncoded(data, 4, h.creationTime);
    BE64AtEncoded(data, 12, h.modificationTime);
    BE32AtEncoded(data, 20, h.timescale);
    BE64AtEncoded(data, 24, h.duration);
  }

  /** The standard reading of a time block gives back every field exactly,
      for both versions: version 1 times keep all 64 bits. */
  lemma StandardTimesRoundTrip(data: seq<uint8>, version: uint8, h: Header)
    requires version == 0 || version == 1
    requires version == 0 ==> h.creationTime < Two32 && h.modificationTime < Two32 && h.duration < Two32
    requires |data| >= HeaderEnd(version) && data[4..HeaderEnd(version)] == EncodeTimes(version, h)
    ensures Standard.StandardHeader(data, version) == h
  {
    if version == 0 {
      TimesV0(data, h);
      Standard.HeaderAgainstStandard(data, 0);
    } else {
      TimesV1Fields(data, h);
    }
  }

  /* ---------------------------------------------------------------- tkhd */

  /** Thirty-two-bit words one after another. */
  function EncodeWords(ws: seq<uint32>): (s: seq<uint8>)
    ensures |s| == 4 * |ws|
  {
    if ws == [] then [] else Encode32(ws[0]) + EncodeWords(ws[1..])
  }

  lemma {:induction false} WordsAt(ws: seq<uint32>, k: nat)
    requires k < |ws|
    ensures EncodeWords(ws)[4 * k..4 * k + 4] == Encode32(ws[k])
  {
    if k > 0 {
      WordsAt(ws[1..], k - 1);
      assert EncodeWords(ws)[4..] == EncodeWords(ws[1..]);
    }
  }

  /** What a standard track header needs to be written: a version the
      standard defines, three flag bytes, a nine-word matrix and, for
      version 0, times that fit 32 bits. */
  predicate TkhdEncodable(version: uint8, flags: seq<uint8>, t: Standard.StandardTrackHeader)
  {
    && (version == 0 || version == 1) && |flags| == 3 && |t.matrix| == 9
    && (version == 0 ==> t.creationTime < Two32 && t.modificationTime < Two32 && t.duration < Two32)
  }

  /** The version-dependent part of a tkhd: times, track ID and the
      reserved word between track ID and duration. */
  function EncodeTkhdTimes(version: uint8, t: Standard.StandardTrackHeader): (s: seq<uint8>)
    requires version == 0 || version == 1
    requires version == 0 ==> t.creationTime < Two32 && t.modificationTime < Two32 && t.duration < Two32
    ensures |s| == Standard.TkhdTimesEnd(version) - 4
  {
    if version == 0 then
      Encode32(t.creationTime) + Encode32(t.modificationTime) + Encode32(t.trackID) + Encode32(0)
      + Encode32(t.duration)
    else
      Encode64(t.creationTime) + Encode64(t.modificationTime) + Encode32(t.trackID) + Encode32(0)
      + Encode64(t.duration)
  }

  /** Two reserved words, layer, alternate group, volume and one more
      reserved halfword, all zero. */
  const TkhdMiddle: seq<uint8> := [0, 0, 0, 0, 0, 0, 0, 0, 0, 0, 0, 0, 0, 0, 0, 0]

  /** The 60 bytes after the times: the zero fields, the matrix, then
      width and height. */
  function EncodeTkhdTail(t: Standard.StandardTrackHeader): (s: seq<uint8>)
    requires |t.matrix| == 9
    ensures |s| == 60
  {
    TkhdMiddle + EncodeWords(t.matrix) + Encode32(t.width) + Encode32(t.height)
  }

  /** A tkhd payload laid out as the standard says. */
  function EncodeTkhd(version: uint8, flags: seq<uint8>, t: Standard.StandardTrackHeader): (s: seq<uint8>)
    requires TkhdEncodable(version, flags, t)
    ensures |s| == Standard.TkhdTimesEnd(version) + 60
  {
    [version] + flags + EncodeTkhdTimes(version, t) + EncodeTkhdTail(t)
  }

  /** The standard reading of a standard tkhd gives back every field. */
  lemma StandardTkhdRoundTrip(version: uint8, flags: seq<uint8>, t: Standard.StandardTrackHeader)
    requires TkhdEncodable(version, flags, t)
    ensures Standard.StandardTkhd(EncodeTkhd(version, flags, t)) == t
  {
    var data := EncodeTkhd(version, flags, t);
    var last := Standard.TkhdTimesEnd(version);
    Pieces(data, [version], flags, EncodeTkhdTimes(version, t), EncodeTkhdTail(t));
    TkhdTimesFields(data, version, t);
    TkhdTailFields(data, last, t);
    StandardTkhdOfFields(data, t);
  }

  /** A payload whose fields all sit where the standard puts them reads
      back as the record they came from. */
  lemma StandardTkhdOfFields(data: seq<uint8>, t: Standard.StandardTrackHeader)
    requires |data| >= 4 && (data[0] == 0 || data[0] == 1) && |t.matrix| == 9
    requires |data| >= Standard.TkhdTimesEnd(data[0]) + 60
    requires data[0] == 0 ==>
               && BE32At(data, 4) == t.creationTime && BE32At(data, 8) == t.modificationTime
               && BE32At(data, 12) == t.trackID && BE32At(data, 20) == t.duration
    requires data[0] == 1 ==>
               && BE64At(data, 4) == t.creationTime && BE64At(data, 12) == t.modificationTime
               && BE32At(data, 20) == t.trackID && BE64At(data, 28) == t.duration
    requires var last := Standard.TkhdTimesEnd(data[0]);
             && (forall k :: 0 <= k < 9 ==> BE32At(data, last + 16 + 4 * k) == t.matrix[k])
             && BE32At(data, last + 52) == t.width && BE32At(data, last + 56) == t.height
    ensures Standard.StandardTkhd(data) == t
  {
    var std := Standard.StandardTkhd(data);
    assert std.matrix == t.matrix;
  }

  /** Matrix, width and height of a standard tail placed at `last`. */
  lemma TkhdTailFields(data: seq<uint8>, last: nat, t: Standard.StandardTrackHeader)
    requires |t.matrix| == 9
    requires last + 60 <= |data| && data[last..last + 60] == EncodeTkhdTail(t)
    ensures forall k :: 0 <= k < 9 ==> BE32At(data, last + 16 + 4 * k) == t.matrix[k]
    ensures BE32At(data, last + 52) == t.width && BE32At(data, last + 56) == t.height
  {
    var words, ew, eh := EncodeWords(t.matrix), Encode32(t.width), Encode32(t.height);
    Pieces(data[last..last + 60], TkhdMiddle, words, ew, eh);
    SubSlice(data, last, last + 60, 52, 56);
    SubSlice(data, last, last + 60, 56, 60);
    BE32AtEncoded(data, last + 52, t.width);
    BE32AtEncoded(data, last + 56, t.height);
    forall k | 0 <= k < 9
      ensures BE32At(data, last + 16 + 4 * k) == t.matrix[k]
    {
      WordsAt(t.matrix, k);
      SubSlice(data, last, last + 60, 16, 52);
      SubSlice(data, last + 16, last + 52, 4 * k, 4 * k + 4);
      BE32AtEncoded(data, last + 16 + 4 * k, t.matrix[k]);
    }
  }

  /** The time fields and the track ID of a standard tkhd sit at their
      offsets. */
  lemma TkhdTimesFields(data: seq<uint8>, version: uint8, t: Standard.StandardTrackHeader)
    requires version == 0 || version == 1
    requires version == 0 ==> t.creationTime < Two32 && t.modificationTime < Two32 && t.duration < Two32
    requires |data| >= Standard.TkhdTimesEnd(version)
    requires data[4..Standard.TkhdTimesEnd(version)] == EncodeTkhdTimes(version, t)
    ensures version == 0 ==>
              && BE32At(data, 4) == t.creationTime && BE32At(data, 8) == t.modificationTime
              && BE32At(data, 12) == t.trackID && BE32At(data, 20) == t.duration
    ensures version == 1 ==>
              && BE64At(data, 4) == t.creationTime && BE64At(data, 12) == t.modificationTime
              && BE32At(data, 20) == t.trackID && BE64At(data, 28) == t.duration
  {
    var e := Standard.TkhdTimesEnd(version);
    if version == 0 {
      var e0, e1, e2 := Encode32(t.creationTime), Encode32(t.modificationTime), Encode32(t.trackID);
      Pieces5(data[4..e], e0, e1, e2, Encode32(0), Encode32(t.duration));
      SubSlice(data, 4, e, 0, 4);
      SubSlice(data, 4, e, 4, 8);
      SubSlice(data, 4, e, 8, 12);
      SubSlice(data, 4, e, 16, 20);
      BE32AtEncoded(data, 4, t.creationTime);
      BE32AtEncoded(data, 8, t.modificationTime);
      BE32AtEncoded(data, 12, t.trackID);
      BE32AtEncoded(data, 20, t.duration);
    } else {
      var e0, e1, e2 := Encode64(t.creationTime), Encode64(t.modificationTime), Encode32(t.trackID);
      Pieces5(data[4..e], e0, e1, e2, Encode32(0), Encode64(t.duration));
      SubSlice(data, 4, e, 0, 8);
      SubSlice(data, 4, e, 8, 16);
      SubSlice(data, 4, e, 16, 20);
      SubSlice(data, 4, e, 24, 32);
      BE64AtEncoded(data, 4, t.creationTime);
      BE64AtEncoded(data, 12, t.modificationTime);
      BE32AtEncoded(data, 20, t.trackID);
      BE64AtEncoded(data, 28, t.duration);
    }
  }

  /** What ParseTkhd makes of a standard tkhd: times and track ID come back,
      but width and height are read two bytes early, so each straddles two
      16.16 fixed-point fields. */
  lemma TkhdOfStandard(version: uint8, flags: seq<uint8>, t: Standard.StandardTrackHeader)
    requires TkhdEncodable(version, flags, t)
    ensures var p := ParseTkhd(EncodeTkhd(version, flags, t));
            && p.vf == VersionFlags(version, flags)
            && p.creationTime == t.creationTime && p.modificationTime == t.modificationTime
            && p.trackID == t.trackID && p.duration == t.duration
            && p.width == (t.matrix[8] % 0x1_0000) * 0x1_0000 + t.width / 0x1_0000
            && p.height == (t.width % 0x1_0000) * 0x1_0000 + t.height / 0x1_0000
  {
    var data := EncodeTkhd(version, flags, t);
    Pieces(data, [version], flags, EncodeTkhdTimes(version, t), EncodeTkhdTail(t));
    StandardTkhdRoundTrip(version, flags, t);
    Standard.TkhdAgainstStandard(data);
  }

  /** With the usual matrix, whose last word is 0x40000000, and whole-pixel
      sizes, the early read happens to give the integer parts of width and
      height; a width with a fractional part spills into the height. A 320.5
      by 240 track reads as width 320 and height 0x800000F0. */
  lemma TkhdFractionalWidth(flags: seq<uint8>, t: Standard.StandardTrackHeader)
    requires TkhdEncodable(0, flags, t) && t.matrix == IdentityMatrix
    requires t.width == 0x0140_8000 && t.height == 0x00F0_0000
    ensures var p := ParseTkhd(EncodeTkhd(0, flags, t));
            p.width == 320 && p.height == 0x8000_00F0
  {
    var p := ParseTkhd(EncodeTkhd(0, flags, t));
    TkhdOfStandard(0, flags, t);
    SpillValues(t.matrix[8], t.width, t.height, p.width, p.height);
  }

  lemma SpillValues(m8: int, w: int, h: int, pw: int, ph: int)
    requires m8 == 0x4000_0000 && w == 0x0140_8000 && h == 0x00F0_0000
    requires pw == (m8 % 0x1_0000) * 0x1_0000 + w / 0x1_0000
    requires ph == (w % 0x1_0000) * 0x1_0000 + h / 0x1_0000
    ensures pw == 320 && ph == 0x8000_00F0
  {
  }

  /** The identity transformation in the 16.16 / 2.30 fixed-point matrix
      of a track header. */
  const IdentityMatrix: seq<uint32> :=
    [0x0001_0000, 0, 0, 0, 0x0001_0000, 0, 0, 0, 0x4000_0000]

  /** The four pieces of a concatenation sit one after another. */
  lemma Pieces(t: seq<uint8>, a: seq<uint8>, b: seq<uint8>, c: seq<uint8>, d: seq<uint8>)
    requires t == a + b + c + d
    ensures t[..|a|] == a && t[|a|..|a| + |b|] == b
    ensures t[|a| + |b|..|a| + |b| + |c|] == c && t[|a| + |b| + |c|..] == d
  {
  }

  /** The five pieces of a concatenation sit one after another. */
  lemma Pieces5(t: seq<uint8>, a: seq<uint8>, b: seq<uint8>, c: seq<uint8>, d: seq<uint8>, e: seq<uint8>)
    requires t == a + b + c + d + e
    ensures t[..|a|] == a && t[|a|..|a| + |b|] == b && t[|a| + |b|..|a| + |b| + |c|] == c
    ensures t[|a| + |b| + |c|..|a| + |b| + |c| + |d|] == d && t[|a| + |b| + |c| + |d|..] == e
  {
  }

  /** A slice of a slice is a slice of the whole. */
  lemma SubSlice(s: seq<uint8>, i: nat, j: nat, k: nat, l: nat)
    requires i <= j <= |s| && k <= l <= j - i
    ensures s[i..j][k..l] == s[i + k..i + l]
  {
    assert forall n :: 0 <= n < l - k ==> s[i..j][k..l][n] == s[i + k + n];
  }
}
