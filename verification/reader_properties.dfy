/** What the walk of reader.go does on sources built from boxes: it finds
    them back in file order, keeps what it found when the source ends in a
    partial header, accepts a last box that overshoots the source, loops on
    a zero size and takes undersized boxes without complaint. */
module ReaderProperties {
  import opened Bytes
  import opened Reader

  /** The 8-byte header of a box: size, then type. */
  function EncodeHeader(size: uint32, boxType: FourCC): (h: seq<uint8>)
    ensures |h| == BoxHeaderSize
  {
    Encode32(size) + boxType
  }

  /** What EncodeHeader wrote at offset is Decoded there. */
  lemma DecodedHeader(src: Source, offset: nat, size: uint32, boxType: FourCC)
    requires offset + BoxHeaderSize <= |src.bytes|
    requires src.bytes[offset..offset + BoxHeaderSize] == EncodeHeader(size, boxType)
    ensures Decoded(src, Box(boxType, offset, size, offset + BoxHeaderSize, size - BoxHeaderSize))
  {
    var h := src.bytes[offset..offset + BoxHeaderSize];
    assert src.bytes[offset..offset + 4] == h[..4] == Encode32(size);
    BE32AtEncoded(src.bytes, offset, size);
    assert src.bytes[offset + 4..offset + 8] == h[4..] == boxType;
  }

  /** readBox decodes what EncodeHeader wrote, wherever it sits. */
  lemma ReadBoxOfHeader(src: Source, offset: nat, size: uint32, boxType: FourCC)
    requires offset + BoxHeaderSize <= |src.bytes|
    requires src.bytes[offset..offset + BoxHeaderSize] == EncodeHeader(size, boxType)
    ensures ReadBox(src, offset) ==
              Ok(Box(boxType, offset, size, offset + BoxHeaderSize, size - BoxHeaderSize))
  {
    var b := Box(boxType, offset, size, offset + BoxHeaderSize, size - BoxHeaderSize);
    DecodedHeader(src, offset, size, boxType);
    HeaderAtDecoded(src, b);
    assert ReadBox(src, offset) == HeaderAt(src, offset);
  }

  /** A box to lay out: its type and payload. */
  datatype Item = Item(boxType: FourCC, payload: seq<uint8>)

  /** The item's box size, header included, fits the 32-bit size field. */
  predicate Fits(it: Item)
  {
    BoxHeaderSize + |it.payload| < Two32
  }

  predicate AllFit(items: seq<Item>)
  {
    forall i :: 0 <= i < |items| ==> Fits(items[i])
  }

  function EncodeItem(it: Item): (s: seq<uint8>)
    requires Fits(it)
    ensures |s| == BoxHeaderSize + |it.payload|
  {
    EncodeHeader(BoxHeaderSize + |it.payload|, it.boxType) + it.payload
  }

  /** The boxes written one after another. */
  function Serialize(items: seq<Item>): (s: seq<uint8>)
    requires AllFit(items)
    ensures |s| >= BoxHeaderSize * |items|
  {
    if items == [] then [] else EncodeItem(items[0]) + Serialize(items[1..])
  }

  /** The box the walk should find for the first item at `at`. */
  function FirstBox(items: seq<Item>, at: nat): (b: Box)
    requires AllFit(items) && items != []
  {
    var size := BoxHeaderSize + |items[0].payload|;
    Box(items[0].boxType, at, size, at + BoxHeaderSize, |items[0].payload|)
  }

  /** The boxes the walk should record for items laid out from `at`: each
      one where the previous one ends. */
  function Layout(items: seq<Item>, at: nat): (boxes: seq<Box>)
    requires AllFit(items)
    ensures |boxes| == |items|
  {
    if items == [] then []
    else
      var b := FirstBox(items, at);
      [b] + Layout(items[1..], End(b))
  }

  /** The first box of a serialized run is the header decoded at its
      offset. */
  lemma ReadFirstSerialized(src: Source, at: nat, items: seq<Item>, tail: seq<uint8>)
    requires AllFit(items) && items != []
    requires at <= |src.bytes| && src.bytes[at..] == Serialize(items) + tail
    ensures Decoded(src, FirstBox(items, at))
  {
    var it := items[0];
    var size := BoxHeaderSize + |it.payload|;
    SerializedSplit(items, tail);
    SuffixSlices(src.bytes, at, Serialize(items) + tail, size);
    DecodedHeader(src, at, size, it.boxType);
  }

  /** The rest of a serialized run starts where the first box's size says. */
  lemma SerializedRest(src: Source, at: nat, items: seq<Item>, tail: seq<uint8>)
    requires AllFit(items) && items != []
    requires at <= |src.bytes| && src.bytes[at..] == Serialize(items) + tail
    ensures End(FirstBox(items, at)) <= |src.bytes|
    ensures src.bytes[End(FirstBox(items, at))..] == Serialize(items[1..]) + tail
  {
    SerializedSplit(items, tail);
    RestOfRun(src.bytes, at, Serialize(items) + tail, BoxHeaderSize + |items[0].payload|,
              Serialize(items[1..]) + tail);
  }

  /** What follows the first `size` bytes of a run found at `at`. */
  lemma RestOfRun(s: seq<uint8>, at: nat, run: seq<uint8>, size: nat, rest: seq<uint8>)
    requires at <= |s| && s[at..] == run && size <= |run| && run[size..] == rest
    ensures at + size <= |s| && s[at + size..] == rest
  {
  }

  /** Slices of a suffix are slices of the whole. */
  lemma SuffixSlices(s: seq<uint8>, at: nat, run: seq<uint8>, size: nat)
    requires at <= |s| && s[at..] == run && BoxHeaderSize <= size <= |run|
    ensures at + size <= |s|
    ensures s[at..at + BoxHeaderSize] == run[..BoxHeaderSize] && s[at + size..] == run[size..]
  {
  }

  /** A serialized run begins with the first item's header and continues
      with the rest of the run. */
  lemma SerializedSplit(items: seq<Item>, tail: seq<uint8>)
    requires AllFit(items) && items != []
    ensures var run, size := Serialize(items) + tail, BoxHeaderSize + |items[0].payload|;
            && size <= |run|
            && run[..BoxHeaderSize] == EncodeHeader(size, items[0].boxType)
            && run[size..] == Serialize(items[1..]) + tail
  {
    var it := items[0];
    var size := BoxHeaderSize + |it.payload|;
    var e, r := EncodeItem(it), Serialize(items[1..]);
    assert Serialize(items) + tail == e + (r + tail);
    Split(e, r + tail);
    Split(EncodeHeader(size, it.boxType), it.payload);
  }

  lemma Split(a: seq<uint8>, b: seq<uint8>)
    ensures (a + b)[..|a|] == a && (a + b)[|a|..] == b
  {
  }

  /** The boxes laid out for a serialized run form a chain in the sense of
      the walk: they tile the run, each is the header decoded at its
      offset, each has a non-zero size, and the chain ends where the run
      ends. */
  lemma {:induction false} LayoutChain(src: Source, at: nat, items: seq<Item>, tail: seq<uint8>)
    requires AllFit(items)
    requires at <= |src.bytes| && src.bytes[at..] == Serialize(items) + tail
    ensures var boxes := Layout(items, at);
            && Tiled(boxes, at) && HeadersRead(src, boxes)
            && (forall i :: 0 <= i < |boxes| ==> boxes[i].size > 0)
            && NextOffset(boxes, at) == at + |Serialize(items)|
    decreases |items|
  {
    if items != [] {
      var b := FirstBox(items, at);
      var next := End(b);
      var rest := Layout(items[1..], next);
      ReadFirstSerialized(src, at, items, tail);
      SerializedRest(src, at, items, tail);
      assert AllFit(items[1..]);
      LayoutChain(src, next, items[1..], tail);
      assert Layout(items, at) == [b] + rest;
      assert |Serialize(items)| == |EncodeItem(items[0])| + |Serialize(items[1..])|;
      TiledPrepend(b, rest, at);
      HeadersPrepend(src, b, rest);
      NextOffsetPrepend(b, rest, at);
      assert forall i :: 0 < i < |rest| + 1 ==> ([b] + rest)[i] == rest[i - 1];
    }
  }

  /** Parsing a source made of well-sized boxes gives back exactly those
      boxes, in file order, each starting where the previous one ends. */
  lemma ParseSerialized(items: seq<Item>, eofAtEnd: bool)
    requires AllFit(items) && |items| > 0
    ensures Parse(Source(Serialize(items), eofAtEnd)) == Complete(Layout(items, 0))
  {
    var src := Source(Serialize(items), eofAtEnd);
    assert src.bytes[0..] == Serialize(items) + [];
    LayoutChain(src, 0, items, []);
    InnerOfChain(src, 0, Layout(items, 0));
    ParseComplete(src, Layout(items, 0));
  }

  /** parse on boxes followed by fewer than 8 further bytes: it fails
      reading the header after the last box, and keeps the boxes it found
      before. */
  lemma ParseSerializedThenShort(items: seq<Item>, tail: seq<uint8>, eofAtEnd: bool)
    requires AllFit(items) && 0 < |tail| < BoxHeaderSize
    ensures Parse(Source(Serialize(items) + tail, eofAtEnd)) ==
              Failed(Layout(items, 0), ReadBoxAt(|Serialize(items)|, EOF))
  {
    var src := Source(Serialize(items) + tail, eofAtEnd);
    assert src.bytes[0..] == Serialize(items) + tail;
    LayoutChain(src, 0, items, tail);
    InnerOfChain(src, 0, Layout(items, 0));
    ParseFailed(src, Layout(items, 0), ReadBoxAt(|Serialize(items)|, EOF));
  }

  /** parse on boxes followed by a header whose size runs past the end of
      the source: that box is recorded too and the walk completes, so the
      overshoot is not reported. */
  lemma ParseSerializedThenOvershoot(items: seq<Item>, size: uint32, boxType: FourCC, partial: seq<uint8>, eofAtEnd: bool)
    requires AllFit(items) && size > BoxHeaderSize + |partial|
    ensures var last := |Serialize(items)|;
            var src := Source(Serialize(items) + (EncodeHeader(size, boxType) + partial), eofAtEnd);
            && Parse(src) == Complete(Layout(items, 0) + [Box(boxType, last, size, last + BoxHeaderSize, size - BoxHeaderSize)])
            && last + size > |src.bytes|
  {
    var last := |Serialize(items)|;
    var src := Source(Serialize(items) + (EncodeHeader(size, boxType) + partial), eofAtEnd);
    var boxes := Layout(items, 0);
    var final := Box(boxType, last, size, last + BoxHeaderSize, size - BoxHeaderSize);
    OvershootChain(src, items, size, boxType, partial, boxes, final);
    ParseLastOvershoots(src, boxes, final);
  }

  /** The chain facts behind ParseSerializedThenOvershoot. */
  lemma OvershootChain(src: Source, items: seq<Item>, size: uint32, boxType: FourCC, partial: seq<uint8>,
                       boxes: seq<Box>, final: Box)
    requires AllFit(items) && size > BoxHeaderSize + |partial|
    requires src.bytes == Serialize(items) + (EncodeHeader(size, boxType) + partial)
    requires boxes == Layout(items, 0)
    requires final == Box(boxType, |Serialize(items)|, size, |Serialize(items)| + BoxHeaderSize, size - BoxHeaderSize)
    ensures Tiled(boxes, 0) && HeadersRead(src, boxes) && Inner(src, boxes)
    ensures final.at == NextOffset(boxes, 0) && Decoded(src, final) && End(final) >= |src.bytes|
  {
    var last := |Serialize(items)|;
    var h := EncodeHeader(size, boxType);
    assert src.bytes[0..] == Serialize(items) + (h + partial);
    LayoutChain(src, 0, items, h + partial);
    InnerOfChain(src, 0, boxes);
    Split(Serialize(items), h + partial);
    Split(h, partial);
    assert src.bytes[last..last + BoxHeaderSize] == h;
    DecodedHeader(src, last, size, boxType);
  }

  /** A chain inside the source, then a header read where it ends whose
      box reaches or passes the end: parse returns the chain and that box. */
  lemma ParseLastOvershoots(src: Source, boxes: seq<Box>, final: Box)
    requires Tiled(boxes, 0) && HeadersRead(src, boxes) && Inner(src, boxes)
    requires final.at == NextOffset(boxes, 0) && Decoded(src, final) && End(final) >= |src.bytes|
    ensures Parse(src) == Complete(boxes + [final])
  {
    ChainAppend(src, 0, boxes, final);
    var all := boxes + [final];
    assert all[|all| - 1] == final;
    ParseComplete(src, all);
  }

  /** A header with size 0 inside the source: the walk records the box and
      never moves on. */
  lemma ZeroSizeDiverges(src: Source, boxType: FourCC)
    requires |src.bytes| >= BoxHeaderSize
    requires src.bytes[..BoxHeaderSize] == EncodeHeader(0, boxType)
    ensures Parse(src) == Diverges([Box(boxType, 0, 0, BoxHeaderSize, -8)])
  {
    ReadBoxOfHeader(src, 0, 0, boxType);
    WalkFromZeroSize(src, 0, Box(boxType, 0, 0, BoxHeaderSize, -8));
    assert Parse(src) == WalkFrom(src, 0);
  }

  /** Nothing rejects a size field below 8: a 4-byte "box" is recorded with
      a negative data size, and the next header is read from the middle of
      its own. Source: size 4, then type 00 00 00 08, then 00 00 00 08. */
  lemma UndersizedBoxAccepted()
    ensures var t: FourCC := [0, 0, 0, 8];
            Parse(Source([0, 0, 0, 4, 0, 0, 0, 8, 0, 0, 0, 8], false)) ==
              Complete([Box(t, 0, 4, 8, -4), Box(t, 4, 8, 12, 0)])
  {
    var src := Source([0, 0, 0, 4, 0, 0, 0, 8, 0, 0, 0, 8], false);
    var t: FourCC := [0, 0, 0, 8];
    var b0, b1 := Box(t, 0, 4, 8, -4), Box(t, 4, 8, 12, 0);
    assert BE32At(src.bytes, 0) == 4 by { assert src.bytes[0..] == src.bytes; }
    assert BE32At(src.bytes, 4) == 8 by { assert src.bytes[4..] == [0, 0, 0, 8, 0, 0, 0, 8]; }
    assert src.bytes[4..8] == t && src.bytes[8..12] == t;
    HeaderAtDecoded(src, b0);
    HeaderAtDecoded(src, b1);
    WalkFromLast(src, 4, b1);
    CompletePrepend(src, 0, b0, [b1]);
    assert Parse(src) == WalkFrom(src, 0);
  }

  /** Each box of a serialized source reads back as its payload. */
  lemma {:induction false} ReadBoxDataSerialized(prefix: seq<uint8>, items: seq<Item>, rest: seq<uint8>, eofAtEnd: bool, i: nat)
    requires AllFit(items) && i < |items|
    ensures var b := Layout(items, |prefix|)[i];
            b.dataSize >= 0 &&
            ReadBoxData(Source(prefix + Serialize(items) + rest, eofAtEnd), b) == ReadResult(items[i].payload, None)
    decreases i
  {
    var src := Source(prefix + Serialize(items) + rest, eofAtEnd);
    var it := items[0];
    var prefix' := prefix + EncodeItem(it);
    assert src.bytes == prefix' + Serialize(items[1..]) + rest;
    if i == 0 {
      var at := |prefix| + BoxHeaderSize;
      assert src.bytes[at..at + |it.payload|] == it.payload;
    } else {
      assert AllFit(items[1..]);
      ReadBoxDataSerialized(prefix', items[1..], rest, eofAtEnd, i - 1);
      assert Layout(items, |prefix|)[i] == Layout(items[1..], |prefix'|)[i - 1];
    }
  }

  /** Boxes of a completed walk appear in strictly increasing file order. */
  lemma ParseInFileOrder(src: Source, i: nat, j: nat)
    requires Parse(src).Complete?
    requires i < j < |Parse(src).boxes|
    ensures Parse(src).boxes[i].at < Parse(src).boxes[j].at
  {
    var bs := Parse(src).boxes;
    ParseComplete(src, bs);
    forall k | 0 < k < |bs|
      ensures bs[k - 1].at < bs[k].at
    {
      assert bs[k - 1] == bs[..|bs| - 1][k - 1];
    }
    Increasing(bs, i, j);
  }

  lemma {:induction false} Increasing(boxes: seq<Box>, i: nat, j: nat)
    requires forall k :: 0 < k < |boxes| ==> boxes[k - 1].at < boxes[k].at
    requires i < j < |boxes|
    ensures boxes[i].at < boxes[j].at
    decreases j - i
  {
    if i + 1 < j {
      Increasing(boxes, i, j - 1);
    }
  }
}
