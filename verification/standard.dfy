/** Reference decoders that follow the box layouts of ISO/IEC 14496-12
    (section 8.2.2 for mvhd, 8.3.2 for tkhd, 8.4.2 for mdhd), and what the
    decoders of data.go deliver compared with them. Two places differ:
    version 1 time fields keep only their high 32 bits, and the tkhd width
    and height are read two bytes early. */
module Standard {
  import opened Bytes
  import opened BoxData

  /** The time block as the standard lays it out: version 1 stores
      creation, modification and duration as 64-bit values. */
  function StandardHeader(data: seq<uint8>, version: uint8): (h: Header)
    requires version == 0 || version == 1
    requires |data| >= HeaderEnd(version)
  {
    if version == 0 then
      Header(BE32At(data, 4), BE32At(data, 8), BE32At(data, 12), BE32At(data, 16))
    else
      Header(BE64At(data, 4), BE64At(data, 12), BE32At(data, 20), BE64At(data, 24))
  }

  /** Version 0 decodes as the standard says. Version 1 keeps the standard
      timescale, but creation, modification and duration lose their low
      32 bits: each is the standard value divided by 2^32. */
  lemma HeaderAgainstStandard(data: seq<uint8>, version: uint8)
    requires version == 0 || version == 1
    requires |data| >= HeaderEnd(version)
    ensures version == 0 ==> ParseHeader(data, version).0 == StandardHeader(data, version)
    ensures version == 1 ==>
              var std := StandardHeader(data, version);
              ParseHeader(data, version).0 ==
                Header(std.creationTime / Two32, std.modificationTime / Two32,
                       std.timescale, std.duration / Two32)
  {
    if version == 1 {
      Uint32IsHighHalf(data[4..]);
      Uint32IsHighHalf(data[12..]);
      Uint32IsHighHalf(data[24..]);
    }
  }

  /** A version 1 header whose creation time is 1: the decoder reports 0. */
  lemma HeaderDropsLowWord()
    ensures var data := seq(32, i => if i == 0 || i == 11 then 1 else 0);
            && StandardHeader(data, 1).creationTime == 1
            && ParseHeader(data, 1).0.creationTime == 0
  {
    var data: seq<uint8> := seq(32, i => if i == 0 || i == 11 then 1 else 0);
    assert Uint32(data[8..]) == 1;
  }

  /** The track header as the standard lays it out. */
  datatype StandardTrackHeader = StandardTrackHeader(
    creationTime: uint64,
    modificationTime: uint64,
    trackID: uint32,
    duration: uint64,
    matrix: seq<uint32>,
    width: uint32,
    height: uint32)

  /** Where the version-dependent time fields of a tkhd end. */
  function TkhdTimesEnd(version: uint8): (e: nat)
  {
    if version == 0 then 24 else 36
  }

  /** tkhd per the standard: after the time fields come two reserved
      words, layer, alternate_group, volume, a 16-bit reserved word
      (16 bytes), the nine-word matrix (36 bytes), then width and height. */
  function StandardTkhd(data: seq<uint8>): (t: StandardTrackHeader)
    requires |data| >= 4 && (data[0] == 0 || data[0] == 1)
    requires |data| >= TkhdTimesEnd(data[0]) + 60
  {
    var last := TkhdTimesEnd(data[0]);
    var matrix := seq(9, k requires 0 <= k < 9 => BE32At(data, last + 16 + 4 * k));
    if data[0] == 0 then
      StandardTrackHeader(BE32At(data, 4), BE32At(data, 8), BE32At(data, 12), BE32At(data, 20),
                          matrix, BE32At(data, last + 52), BE32At(data, last + 56))
    else
      StandardTrackHeader(BE64At(data, 4), BE64At(data, 12), BE32At(data, 20), BE64At(data, 28),
                          matrix, BE32At(data, last + 52), BE32At(data, last + 56))
  }

  /** The decoder agrees with the standard on the time fields and the
      track ID, but its width is the low half of the last matrix word
      followed by the high half of the true width, and its height is the
      low half of the true width followed by the high half of the true
      height. */
  lemma TkhdAgainstStandard(data: seq<uint8>)
    requires |data| >= 4 && (data[0] == 0 || data[0] == 1)
    requires |data| >= TkhdTimesEnd(data[0]) + 60
    ensures var t, std := ParseTkhd(data), StandardTkhd(data);
            && t.creationTime == std.creationTime
            && t.modificationTime == std.modificationTime
            && t.trackID == std.trackID
            && t.duration == std.duration
            && t.width == (std.matrix[8] % 0x1_0000) * 0x1_0000 + std.width / 0x1_0000
            && t.height == (std.width % 0x1_0000) * 0x1_0000 + std.height / 0x1_0000
  {
    var t, std := ParseTkhd(data), StandardTkhd(data);
    var p := TkhdTimesEnd(data[0]) + TkhdSkip;
    var d := data;
    assert t.width == BE32At(data, p) && t.height == BE32At(data, p + 4);
    assert std.matrix[8] == BE32At(data, p - 2);
    assert std.width == BE32At(data, p + 2) && std.height == BE32At(data, p + 6);
    DivModTwo16(std.matrix[8], d[p - 2] as int * 0x100 + d[p - 1], d[p] as int * 0x100 + d[p + 1]);
    DivModTwo16(std.width, d[p + 2] as int * 0x100 + d[p + 3], d[p + 4] as int * 0x100 + d[p + 5]);
    DivModTwo16(std.height, d[p + 6] as int * 0x100 + d[p + 7], d[p + 8] as int * 0x100 + d[p + 9]);
  }
}
