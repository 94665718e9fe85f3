/** The top-level box walk of reader.go: positional reads from a byte
    source of known length, the 8-byte box header (ISO/IEC 14496-12
    section 4.2), and the flat walk that tiles the source with boxes from
    offset 0. The file is replaced by an immutable byte sequence. */
module Reader {
  import opened Bytes

  /** BoxHeaderSize: 4 bytes of size and 4 bytes of type. */
  const BoxHeaderSize: nat := 8

  datatype Option<T> = None | Some(value: T)

  /** The errors the reader can surface. */
  datatype Error =
    | EOF                                  // io.EOF: the source ended before the buffer was full
    | ReadBoxAt(offset: nat, cause: Error) // readBox's "read box at offset %d: %w" wrapping

  datatype Result<T> = Ok(value: T) | Err(error: Error)

  /** The io.ReaderAt behind the reader, as a sequence of bytes whose length
      is the size the reader was opened with. The io.ReaderAt contract lets
      a read that fills the buffer exactly at the end of the input report
      either io.EOF or no error; `eofAtEnd` says which this source does. */
  datatype Source = Source(bytes: seq<uint8>, eofAtEnd: bool)

  /** What one ReadAt call delivers: the bytes copied into the front of
      the buffer, and its error. */
  datatype RawRead = RawRead(copied: seq<uint8>, err: Option<Error>)

  /** ReadAt of an n-byte buffer at offset: it copies what the source has
      there, and reports io.EOF whenever that is less than n. */
  function ReadAt(src: Source, n: nat, offset: nat): (r: RawRead)
    ensures |r.copied| <= n
    ensures |r.copied| < n ==> r.err == Some(EOF)
    ensures r.err == None || r.err == Some(EOF)
    ensures offset <= |src.bytes| ==>
              offset + |r.copied| <= |src.bytes| && r.copied == src.bytes[offset..offset + |r.copied|]
    ensures offset + n <= |src.bytes| <==> |r.copied| == n && offset <= |src.bytes|
  {
    if offset + n <= |src.bytes| then
      RawRead(src.bytes[offset..offset + n],
              if src.eofAtEnd && offset + n == |src.bytes| then Some(EOF) else None)
    else if offset < |src.bytes| then
      RawRead(src.bytes[offset..], Some(EOF))
    else
      RawRead([], Some(EOF))
  }

  /** The zero bytes of a freshly made buffer. */
  function Zeros(n: nat): (z: seq<uint8>)
    ensures |z| == n
  {
    if n == 0 then [] else Zeros(n - 1) + [0]
  }

  /** What readNBytesAt returns: the whole buffer, and the error. */
  datatype ReadResult = ReadResult(data: seq<uint8>, err: Option<Error>)

  /** readNBytesAt: make an n-byte buffer (a negative n panics, so n is a
      nat) and fill it from the source at offset. A ReadAt that filled the
      buffer but said io.EOF counts as a success; any other error stays. */
  function ReadNBytesAt(src: Source, n: nat, offset: nat): (r: ReadResult)
    ensures |r.data| == n
    ensures r.err == None <==> n == 0 || offset + n <= |src.bytes|
    ensures offset + n <= |src.bytes| ==> r.data == src.bytes[offset..offset + n]
    ensures r.err != None ==> r.err == Some(EOF)
    ensures r.err != None && offset <= |src.bytes| ==>
              r.data == src.bytes[offset..] + Zeros(offset + n - |src.bytes|)
    ensures offset > |src.bytes| ==> r.data == Zeros(n)
  {
    var raw := ReadAt(src, n, offset);
    var data := raw.copied + Zeros(n - |raw.copied|);
    var err := if raw.err != None && |raw.copied| == n && raw.err == Some(EOF) then None else raw.err;
    ReadResult(data, err)
  }

  /** One box as the walk records it. Size is the 32-bit size field widened
      to int64, so it is never negative; DataSize is Size - 8 and is
      negative for a size field below 8. */
  datatype Box = Box(boxType: FourCC, at: nat, size: uint32, dataOffset: nat, dataSize: int)

  /** The offset just past the box, as its size field declares it. */
  function End(b: Box): (e: nat)
  {
    b.at + b.size
  }

  /** b is the box whose 8-byte header sits at b.at: the size field is the
      big-endian word there, the type the four bytes after it, and the
      payload starts right after the header and runs to the declared end. */
  predicate Decoded(src: Source, b: Box)
  {
    && b.at + BoxHeaderSize <= |src.bytes|
    && b.size == BE32At(src.bytes, b.at)
    && b.boxType == src.bytes[b.at + 4..b.at + 8]
    && b.dataOffset == b.at + BoxHeaderSize
    && b.dataSize == b.size - BoxHeaderSize
  }

  /** The header at offset as ISO/IEC 14496-12 section 4.2 lays it out,
      decoded straight from the source: the reference readBox is held to. */
  function HeaderAt(src: Source, offset: nat): (r: Result<Box>)
    ensures r.Ok? <==> offset + BoxHeaderSize <= |src.bytes|
    ensures r.Err? ==> r.error == ReadBoxAt(offset, EOF)
    ensures r.Ok? ==> r.value.at == offset && Decoded(src, r.value)
  {
    if offset + BoxHeaderSize <= |src.bytes| then
      var boxSize := BE32At(src.bytes, offset);
      Ok(Box(src.bytes[offset + 4..offset + 8], offset, boxSize,
             offset + BoxHeaderSize, boxSize - BoxHeaderSize))
    else
      Err(ReadBoxAt(offset, EOF))
  }

  /** readBox: read 8 bytes at offset with readNBytesAt and decode them.
      There is no check that the size field is at least 8. It delivers the
      reference header wherever one fits and the wrapped EOF otherwise. */
  function ReadBox(src: Source, offset: nat): (r: Result<Box>)
    ensures r == HeaderAt(src, offset)
  {
    var header := ReadNBytesAt(src, BoxHeaderSize, offset);
    if header.err != None then
      Err(ReadBoxAt(offset, header.err.value))
    else
      var boxSize := Uint32(header.data[0..4]);
      Ok(Box(header.data[4..BoxHeaderSize], offset, boxSize,
             offset + BoxHeaderSize, boxSize - BoxHeaderSize))
  }

  /** The header decoded at an offset is the only box Decoded there. */
  lemma HeaderAtDecoded(src: Source, b: Box)
    ensures HeaderAt(src, b.at) == Ok(b) <==> Decoded(src, b)
  {
  }

  /** The outcome of the walk. `Complete` and `Failed` are the two returns
      of parse (on failure the boxes found so far stay recorded). A box
      whose size field is 0 never moves the cursor, so parse loops forever
      appending that box; `Diverges` stands for that run, holding the boxes
      up to the first copy of the zero-sized box. */
  datatype Walk =
    | Complete(boxes: seq<Box>)
    | Failed(boxes: seq<Box>, error: Error)
    | Diverges(boxes: seq<Box>)

  /** Boxes laid end to end from start: each begins where the previous
      one's declared size ends. */
  predicate Tiled(boxes: seq<Box>, start: nat)
  {
    && (|boxes| > 0 ==> boxes[0].at == start)
    && forall i :: 0 <= i < |boxes| - 1 ==> boxes[i + 1].at == End(boxes[i])
  }

  /** Every box is exactly what readBox decodes at its own offset (see
      HeaderAtDecoded). */
  predicate HeadersRead(src: Source, boxes: seq<Box>)
  {
    forall i :: 0 <= i < |boxes| ==> Decoded(src, boxes[i])
  }

  /** Every box has a non-zero size and ends strictly inside the source. */
  predicate Inner(src: Source, boxes: seq<Box>)
  {
    forall i :: 0 <= i < |boxes| ==> boxes[i].size > 0 && End(boxes[i]) < |src.bytes|
  }

  /** Where the walk reads its next header after the boxes found from pivot. */
  function NextOffset(boxes: seq<Box>, pivot: nat): (o: nat)
  {
    if |boxes| == 0 then pivot else End(boxes[|boxes| - 1])
  }

  /** b in front of a walk's boxes. */
  function Prepend(b: Box, w: Walk): (w': Walk)
    ensures w'.boxes == [b] + w.boxes
    ensures w'.Complete? == w.Complete? && w'.Failed? == w.Failed? && w'.Diverges? == w.Diverges?
    ensures w'.Failed? ==> w'.error == w.error
  {
    match w
    case Complete(bs) => Complete([b] + bs)
    case Failed(bs, e) => Failed([b] + bs, e)
    case Diverges(bs) => Diverges([b] + bs)
  }

  /** The loop of parse from cursor `pivot`: read the header there (what
      readBox returns, which is HeaderAt), record the box, advance by its
      size, and stop once the cursor reaches or passes the end of the
      source. */
  function WalkFrom(src: Source, pivot: nat): (w: Walk)
    ensures |w.boxes| > 0 ==> w.boxes[0].at == pivot
    ensures w.Failed? || |w.boxes| > 0
    decreases |src.bytes| - pivot
  {
    match HeaderAt(src, pivot)
    case Err(e) => Failed([], e)
    case Ok(b) =>
      var next := End(b);
      if next >= |src.bytes| then Complete([b])
      else if b.size == 0 then Diverges([b])
      else Prepend(b, WalkFrom(src, next))
  }

  /** One turn of the loop: a box read at the cursor that neither reaches
      the end of the source nor has size 0 is followed by the walk from
      its end. */
  lemma WalkFromStep(src: Source, pivot: nat, b: Box)
    requires HeaderAt(src, pivot) == Ok(b)
    requires End(b) < |src.bytes| && b.size > 0
    ensures WalkFrom(src, pivot) == Prepend(b, WalkFrom(src, End(b)))
  {
  }

  lemma CompletePrepend(src: Source, pivot: nat, b: Box, rest: seq<Box>)
    requires HeaderAt(src, pivot) == Ok(b)
    requires End(b) < |src.bytes| && b.size > 0
    requires WalkFrom(src, End(b)) == Complete(rest)
    ensures WalkFrom(src, pivot) == Complete([b] + rest)
  {
    WalkFromStep(src, pivot, b);
  }

  lemma FailedPrepend(src: Source, pivot: nat, b: Box, rest: seq<Box>, e: Error)
    requires HeaderAt(src, pivot) == Ok(b)
    requires End(b) < |src.bytes| && b.size > 0
    requires WalkFrom(src, End(b)) == Failed(rest, e)
    ensures WalkFrom(src, pivot) == Failed([b] + rest, e)
  {
    WalkFromStep(src, pivot, b);
  }

  lemma DivergesPrepend(src: Source, pivot: nat, b: Box, rest: seq<Box>)
    requires HeaderAt(src, pivot) == Ok(b)
    requires End(b) < |src.bytes| && b.size > 0
    requires WalkFrom(src, End(b)) == Diverges(rest)
    ensures WalkFrom(src, pivot) == Diverges([b] + rest)
  {
    WalkFromStep(src, pivot, b);
  }

  /** The last turn of the loop: a box read at the cursor that reaches or
      passes the end of the source completes the walk. */
  lemma WalkFromLast(src: Source, pivot: nat, b: Box)
    requires HeaderAt(src, pivot) == Ok(b)
    requires End(b) >= |src.bytes|
    ensures WalkFrom(src, pivot) == Complete([b])
  {
  }

  /** A box of size 0 inside the source: the walk stops advancing. */
  lemma WalkFromZeroSize(src: Source, pivot: nat, b: Box)
    requires HeaderAt(src, pivot) == Ok(b)
    requires b.size == 0 && pivot < |src.bytes|
    ensures WalkFrom(src, pivot) == Diverges([b])
  {
  }

  /** No header fits at the cursor: the walk fails at once. */
  lemma WalkFromShort(src: Source, pivot: nat)
    requires pivot + BoxHeaderSize > |src.bytes|
    ensures WalkFrom(src, pivot) == Failed([], ReadBoxAt(pivot, EOF))
  {
  }

  /** The boxes of the walk tile the source from the cursor on, and each
      one is the header decoded at its own offset. */
  lemma {:induction false} WalkFromTiles(src: Source, pivot: nat)
    ensures Tiled(WalkFrom(src, pivot).boxes, pivot)
    ensures HeadersRead(src, WalkFrom(src, pivot).boxes)
    decreases |src.bytes| - pivot
  {
    var w := WalkFrom(src, pivot);
    match HeaderAt(src, pivot)
    case Err(e) =>
    case Ok(b) =>
      var next := End(b);
      if next < |src.bytes| && b.size != 0 {
        var rest := WalkFrom(src, next);
        WalkFromTiles(src, next);
        assert w.boxes == [b] + rest.boxes;
        forall i | 0 <= i < |w.boxes| - 1
          ensures w.boxes[i + 1].at == End(w.boxes[i])
        {
          if i > 0 {
            assert w.boxes[i] == rest.boxes[i - 1];
          }
        }
        forall i | 0 <= i < |w.boxes|
          ensures Decoded(src, w.boxes[i])
        {
          if i > 0 {
            assert w.boxes[i] == rest.boxes[i - 1];
          }
        }
      }
  }

  /** A walk that ends normally stops on the first box that reaches or
      passes the end of the source; every box before it has a non-zero
      size and ends strictly inside the source. */
  lemma {:induction false} WalkFromCompletes(src: Source, pivot: nat)
    ensures var w := WalkFrom(src, pivot);
            var bs := w.boxes;
            w.Complete? ==> Inner(src, bs[..|bs| - 1]) && End(bs[|bs| - 1]) >= |src.bytes|
    decreases |src.bytes| - pivot
  {
    var w := WalkFrom(src, pivot);
    if w.Complete? && End(HeaderAt(src, pivot).value) < |src.bytes| {
      var b := HeaderAt(src, pivot).value;
      var next := End(b);
      var rest := WalkFrom(src, next);
      WalkFromCompletes(src, next);
      var n := |rest.boxes|;
      assert w.boxes[..|w.boxes| - 1] == [b] + rest.boxes[..n - 1];
      InnerPrepend(src, b, rest.boxes[..n - 1]);
    }
  }

  /** A walk fails on the first header that does not fit in the source,
      read right after the last box it found; every box it found has a
      non-zero size and ends strictly inside the source. */
  lemma {:induction false} WalkFromFails(src: Source, pivot: nat)
    ensures var w := WalkFrom(src, pivot);
            w.Failed? ==>
            && Inner(src, w.boxes)
            && NextOffset(w.boxes, pivot) + BoxHeaderSize > |src.bytes|
            && w.error == ReadBoxAt(NextOffset(w.boxes, pivot), EOF)
    decreases |src.bytes| - pivot
  {
    var w := WalkFrom(src, pivot);
    if w.Failed? && HeaderAt(src, pivot).Ok? {
      var b := HeaderAt(src, pivot).value;
      var next := End(b);
      var rest := WalkFrom(src, next);
      WalkFromFails(src, next);
      InnerPrepend(src, b, rest.boxes);
      if |rest.boxes| > 0 {
        assert w.boxes[|w.boxes| - 1] == rest.boxes[|rest.boxes| - 1];
      }
    }
  }

  /** A walk diverges on the first box whose size field is 0, a box that
      lies inside the source; every box before it has a non-zero size and
      ends strictly inside the source. */
  lemma {:induction false} WalkFromDiverges(src: Source, pivot: nat)
    ensures var w := WalkFrom(src, pivot);
            var bs := w.boxes;
            w.Diverges? ==>
            && Inner(src, bs[..|bs| - 1])
            && bs[|bs| - 1].size == 0
            && End(bs[|bs| - 1]) < |src.bytes|
    decreases |src.bytes| - pivot
  {
    var w := WalkFrom(src, pivot);
    if w.Diverges? && HeaderAt(src, pivot).value.size != 0 {
      var b := HeaderAt(src, pivot).value;
      var next := End(b);
      var rest := WalkFrom(src, next);
      WalkFromDiverges(src, next);
      var n := |rest.boxes|;
      assert w.boxes[..|w.boxes| - 1] == [b] + rest.boxes[..n - 1];
      InnerPrepend(src, b, rest.boxes[..n - 1]);
    }
  }

  lemma InnerPrepend(src: Source, b: Box, boxes: seq<Box>)
    requires b.size > 0 && End(b) < |src.bytes| && Inner(src, boxes)
    ensures Inner(src, [b] + boxes)
  {
    assert forall i :: 0 < i < |boxes| + 1 ==> ([b] + boxes)[i] == boxes[i - 1];
  }

  lemma TiledPrepend(b: Box, rest: seq<Box>, pivot: nat)
    requires b.at == pivot && Tiled(rest, End(b))
    ensures Tiled([b] + rest, pivot)
  {
    var bs := [b] + rest;
    forall i | 0 <= i < |bs| - 1
      ensures bs[i + 1].at == End(bs[i])
    {
      if i > 0 {
        assert bs[i] == rest[i - 1];
      }
    }
  }

  lemma HeadersPrepend(src: Source, b: Box, rest: seq<Box>)
    requires Decoded(src, b) && HeadersRead(src, rest)
    ensures HeadersRead(src, [b] + rest)
  {
    assert forall i :: 0 < i < |rest| + 1 ==> ([b] + rest)[i] == rest[i - 1];
  }

  lemma NextOffsetPrepend(b: Box, rest: seq<Box>, pivot: nat)
    ensures NextOffset([b] + rest, pivot) == NextOffset(rest, End(b))
  {
    if |rest| > 0 {
      assert ([b] + rest)[|rest|] == rest[|rest| - 1];
    }
  }

  /** A chain followed by a box read where it ends. */
  lemma ChainAppend(src: Source, pivot: nat, boxes: seq<Box>, last: Box)
    requires Tiled(boxes, pivot) && HeadersRead(src, boxes)
    requires last.at == NextOffset(boxes, pivot) && Decoded(src, last)
    ensures Tiled(boxes + [last], pivot) && HeadersRead(src, boxes + [last])
    ensures (boxes + [last])[..|boxes|] == boxes
  {
    var bs := boxes + [last];
    assert forall i :: 0 <= i < |boxes| ==> bs[i] == boxes[i];
    assert bs[|boxes|] == last;
  }

  /** In a chain of boxes of non-zero size every box but the last lies
      inside the source, since the next header is read where it ends; the
      last one does too when the chain ends inside the source. */
  lemma InnerOfChain(src: Source, pivot: nat, boxes: seq<Box>)
    requires Tiled(boxes, pivot) && HeadersRead(src, boxes)
    requires forall i :: 0 <= i < |boxes| ==> boxes[i].size > 0
    ensures |boxes| > 0 ==> Inner(src, boxes[..|boxes| - 1])
    ensures NextOffset(boxes, pivot) < |src.bytes| ==> Inner(src, boxes)
  {
    if |boxes| > 0 {
      var front := boxes[..|boxes| - 1];
      forall i | 0 <= i < |front|
        ensures front[i].size > 0 && End(front[i]) < |src.bytes|
      {
        assert front[i] == boxes[i];
        assert Decoded(src, boxes[i + 1]);
      }
    }
  }

  /** The first box of a chain, and the chain that follows it. */
  lemma ChainTail(src: Source, pivot: nat, boxes: seq<Box>)
    requires |boxes| > 0 && Tiled(boxes, pivot) && HeadersRead(src, boxes)
    ensures HeaderAt(src, pivot) == Ok(boxes[0])
    ensures Tiled(boxes[1..], End(boxes[0])) && HeadersRead(src, boxes[1..])
    ensures NextOffset(boxes[1..], End(boxes[0])) == NextOffset(boxes, pivot)
  {
    var rest := boxes[1..];
    assert forall i :: 0 <= i < |rest| ==> rest[i] == boxes[i + 1];
    HeaderAtDecoded(src, boxes[0]);
  }

  lemma InnerTail(src: Source, boxes: seq<Box>, k: nat)
    requires 0 < k <= |boxes| && Inner(src, boxes[..k])
    ensures boxes[0].size > 0 && End(boxes[0]) < |src.bytes|
    ensures Inner(src, boxes[1..][..k - 1])
  {
    var front, after := boxes[..k], boxes[1..][..k - 1];
    assert front[0] == boxes[0];
    assert forall i :: 0 <= i < k - 1 ==> after[i] == front[i + 1];
  }

  /** The converse of WalkFromCompletes and WalkFromTiles: boxes that tile
      the source from the cursor, each decoded at its own offset, all but
      the last inside the source and the last reaching its end, are the
      walk. */
  lemma {:induction false} CompleteChain(src: Source, pivot: nat, boxes: seq<Box>)
    requires |boxes| > 0 && Tiled(boxes, pivot) && HeadersRead(src, boxes)
    requires Inner(src, boxes[..|boxes| - 1]) && End(boxes[|boxes| - 1]) >= |src.bytes|
    ensures WalkFrom(src, pivot) == Complete(boxes)
    decreases |boxes|
  {
    var b := boxes[0];
    ChainTail(src, pivot, boxes);
    if |boxes| == 1 {
      WalkFromLast(src, pivot, b);
      assert boxes == [b];
    } else {
      InnerTail(src, boxes, |boxes| - 1);
      CompleteChain(src, End(b), boxes[1..]);
      CompletePrepend(src, pivot, b, boxes[1..]);
      assert [b] + boxes[1..] == boxes;
    }
  }

  /** The converse of WalkFromFails: boxes that tile the source from the
      cursor, each decoded at its own offset and inside the source, with no
      room for a header after them, are what the failed walk keeps. */
  lemma {:induction false} FailedChain(src: Source, pivot: nat, boxes: seq<Box>)
    requires Tiled(boxes, pivot) && HeadersRead(src, boxes) && Inner(src, boxes)
    requires NextOffset(boxes, pivot) + BoxHeaderSize > |src.bytes|
    ensures WalkFrom(src, pivot) == Failed(boxes, ReadBoxAt(NextOffset(boxes, pivot), EOF))
    decreases |boxes|
  {
    if |boxes| == 0 {
      WalkFromShort(src, pivot);
      assert boxes == [];
      assert WalkFrom(src, pivot) == Failed(boxes, ReadBoxAt(NextOffset(boxes, pivot), EOF));
    } else {
      var b, rest := boxes[0], boxes[1..];
      var e := ReadBoxAt(NextOffset(boxes, pivot), EOF);
      ChainTail(src, pivot, boxes);
      assert boxes[..|boxes|] == boxes;
      InnerTail(src, boxes, |boxes|);
      FailedChain(src, End(b), rest);
      FailedPrepend(src, pivot, b, rest, e);
      assert [b] + rest == boxes;
    }
  }

  /** The converse of WalkFromDiverges: a chain whose boxes before the
      last lie inside the source, ending on a box of size 0 that also lies
      inside it, is the diverging walk. */
  lemma {:induction false} DivergesChain(src: Source, pivot: nat, boxes: seq<Box>)
    requires |boxes| > 0 && Tiled(boxes, pivot) && HeadersRead(src, boxes)
    requires Inner(src, boxes[..|boxes| - 1])
    requires boxes[|boxes| - 1].size == 0 && End(boxes[|boxes| - 1]) < |src.bytes|
    ensures WalkFrom(src, pivot) == Diverges(boxes)
    decreases |boxes|
  {
    var b := boxes[0];
    ChainTail(src, pivot, boxes);
    if |boxes| == 1 {
      WalkFromZeroSize(src, pivot, b);
      assert boxes == [b];
    } else {
      InnerTail(src, boxes, |boxes| - 1);
      DivergesChain(src, End(b), boxes[1..]);
      DivergesPrepend(src, pivot, b, boxes[1..]);
      assert [b] + boxes[1..] == boxes;
    }
  }

  /** parse: the walk from offset 0. It always reads a first header, so
      a source of fewer than 8 bytes, empty or not, fails. Its three
      outcomes are characterised by ParseComplete, ParseFailed and
      ParseDiverges. */
  function Parse(src: Source): (w: Walk)
    ensures w.Failed? || |w.boxes| > 0
    ensures |src.bytes| < BoxHeaderSize ==> w == Failed([], ReadBoxAt(0, EOF))
  {
    WalkFrom(src, 0)
  }

  /** Whatever the outcome, the recorded boxes tile the source from 0 and
      each is the header decoded at its own offset. */
  lemma ParseTiles(src: Source)
    ensures Tiled(Parse(src).boxes, 0) && HeadersRead(src, Parse(src).boxes)
  {
    WalkFromTiles(src, 0);
  }

  /** parse returns boxes and no error exactly when the boxes tile the
      source from 0, each is the header at its offset, all but the last
      have a non-zero size and end inside the source, and the last reaches
      or passes its end. */
  lemma ParseComplete(src: Source, boxes: seq<Box>)
    ensures Parse(src) == Complete(boxes) <==>
              && |boxes| > 0 && Tiled(boxes, 0) && HeadersRead(src, boxes)
              && Inner(src, boxes[..|boxes| - 1]) && End(boxes[|boxes| - 1]) >= |src.bytes|
  {
    if Parse(src) == Complete(boxes) {
      WalkFromTiles(src, 0);
      WalkFromCompletes(src, 0);
    }
    if |boxes| > 0 && Tiled(boxes, 0) && HeadersRead(src, boxes)
       && Inner(src, boxes[..|boxes| - 1]) && End(boxes[|boxes| - 1]) >= |src.bytes| {
      CompleteChain(src, 0, boxes);
    }
  }

  /** parse fails exactly when the boxes it keeps tile the source from 0,
      each is the header at its offset, non-empty and inside the source,
      and no header fits after them; the error is the wrapped EOF of the
      read at that offset. */
  lemma ParseFailed(src: Source, boxes: seq<Box>, e: Error)
    ensures Parse(src) == Failed(boxes, e) <==>
              && Tiled(boxes, 0) && HeadersRead(src, boxes) && Inner(src, boxes)
              && NextOffset(boxes, 0) + BoxHeaderSize > |src.bytes|
              && e == ReadBoxAt(NextOffset(boxes, 0), EOF)
  {
    if Parse(src) == Failed(boxes, e) {
      WalkFromTiles(src, 0);
      WalkFromFails(src, 0);
    }
    if Tiled(boxes, 0) && HeadersRead(src, boxes) && Inner(src, boxes)
       && NextOffset(boxes, 0) + BoxHeaderSize > |src.bytes| {
      FailedChain(src, 0, boxes);
    }
  }

  /** parse loops forever exactly when the chain from 0 reaches, inside the
      source, a header whose size field is 0; `boxes` is the chain up to
      that box. */
  lemma ParseDiverges(src: Source, boxes: seq<Box>)
    ensures Parse(src) == Diverges(boxes) <==>
              && |boxes| > 0 && Tiled(boxes, 0) && HeadersRead(src, boxes)
              && Inner(src, boxes[..|boxes| - 1])
              && boxes[|boxes| - 1].size == 0 && End(boxes[|boxes| - 1]) < |src.bytes|
  {
    if Parse(src) == Diverges(boxes) {
      WalkFromTiles(src, 0);
      WalkFromDiverges(src, 0);
    }
    if |boxes| > 0 && Tiled(boxes, 0) && HeadersRead(src, boxes)
       && Inner(src, boxes[..|boxes| - 1])
       && boxes[|boxes| - 1].size == 0 && End(boxes[|boxes| - 1]) < |src.bytes| {
      DivergesChain(src, 0, boxes);
    }
  }

  /** ReadBoxData: read DataSize bytes at DataOffset. A negative DataSize
      (a size field below 8) panics in make, hence the precondition. */
  function ReadBoxData(src: Source, b: Box): (r: ReadResult)
    requires b.dataSize >= 0
    ensures |r.data| == b.dataSize
    ensures b.dataOffset == b.at + BoxHeaderSize && b.dataOffset + b.dataSize == End(b) ==>
              && (r.err == None <==> b.size == BoxHeaderSize || End(b) <= |src.bytes|)
              && (End(b) <= |src.bytes| ==> r.data == src.bytes[b.at + BoxHeaderSize..End(b)])
  {
    ReadNBytesAt(src, b.dataSize, b.dataOffset)
  }
}
