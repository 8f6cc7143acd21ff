/** What the RTCP parser recovers from a serialized source description. With
    end bytes written and fields read at the cursor, every chunk comes back;
    as written, a second chunk is misread because the first has no end byte,
    and the parser takes chunk SSRCs and item text from the packet start. */
module SdesCodec {
  import opened Results
  import opened Bytes
  import opened Rtcp
  import opened RtcpParser
  import W = RtcpSerializer

  /** An item the wire format can carry: not the end marker, text under 256 bytes. */
  predicate ValidItem(it: SdesItem)
  {
    it.itemType != SdesEnd && |it.text| < 0x100
  }

  /** Every item of the list can be carried. */
  predicate ValidItems(items: seq<SdesItem>)
  {
    |items| == 0 || (ValidItem(items[0]) && ValidItems(items[1..]))
  }

  /** Every item of every chunk can be carried. */
  predicate ValidChunks(chunks: seq<SdesChunk>)
  {
    |chunks| == 0 || (ValidItems(chunks[0].items) && ValidChunks(chunks[1..]))
  }

  /** The bytes of a chunk's item list as the corrected serializer writes
      it: the items, then the end byte. */
  function ItemList(items: seq<SdesItem>): (img: Bytes)
    ensures |img| == ItemsLength(items) + 1
  {
    W.ItemsImage(items) + [SdesEnd]
  }

  /** One item laid out in `b` at `idx`: type, length, text. */
  ghost predicate ItemAt(b: Bytes, idx: nat, it: SdesItem)
  {
    && ValidItem(it)
    && idx + 2 + |it.text| <= |b|
    && b[idx] == it.itemType && b[idx + 1] == |it.text|
    && b[idx + 2..idx + 2 + |it.text|] == it.text
  }

  /** At an end byte the item list is empty and the cursor moves past it. */
  lemma ParseItemsEnd(b: Bytes, idx: nat)
    requires idx < |b| && b[idx] == SdesEnd
    ensures ParseItems(AtCursor, b, idx) == Ok(Parsed([], idx + 1))
  {
  }

  /** An item laid out at the cursor is read, then the rest of the list after it. */
  lemma ParseItemsCons(b: Bytes, idx: nat, next: nat, it: SdesItem, rest: seq<SdesItem>, last: nat)
    requires ItemAt(b, idx, it) && next == idx + 2 + |it.text|
    requires ParseItems(AtCursor, b, next) == Ok(Parsed(rest, last))
    ensures ParseItems(AtCursor, b, idx) == Ok(Parsed([it] + rest, last))
  {
  }

  /** An item list in `b` between `idx` and `last` splits into its first
      item and the list after it. */
  lemma ItemListSplit(b: Bytes, idx: nat, next: nat, last: nat, items: seq<SdesItem>)
    requires |items| > 0 && ValidItem(items[0]) && next == idx + 2 + |items[0].text|
    requires last == idx + |ItemList(items)| <= |b| && b[idx..last] == ItemList(items)
    ensures ItemAt(b, idx, items[0])
    ensures last == next + |ItemList(items[1..])| && b[next..last] == ItemList(items[1..])
  {
    var it := items[0];
    var hd := [it.itemType, |it.text|];
    var rest := ItemList(items[1..]);
    assert [it.itemType, |it.text| % 0x100] == hd;
    Assoc4(hd, it.text, W.ItemsImage(items[1..]), [SdesEnd]);
    SliceSplit(b, idx, hd, it.text + rest);
    SliceSplit(b, idx + 2, it.text, rest);
    assert b[idx] == b[idx..idx + 2][0] && b[idx + 1] == b[idx..idx + 2][1];
  }

  /** An item list found at the cursor parses back, the cursor stopping
      just after its end byte. */
  lemma {:induction false} ParseItemList(b: Bytes, idx: nat, last: nat, items: seq<SdesItem>)
    requires ValidItems(items)
    requires last == idx + |ItemList(items)| <= |b| && b[idx..last] == ItemList(items)
    ensures ParseItems(AtCursor, b, idx) == Ok(Parsed(items, last))
    decreases |items|
  {
    if |items| == 0 {
      assert b[idx] == b[idx..last][0];
      ParseItemsEnd(b, idx);
    } else {
      var next := idx + 2 + |items[0].text|;
      ItemListSplit(b, idx, next, last, items);
      ParseItemList(b, next, last, items[1..]);
      ParseItemsCons(b, idx, next, items[0], items[1..], last);
      ConsTail(items);
    }
  }

  /** The items of a chunk followed by its end byte parse back from a
      serialized buffer. */
  lemma ParseItemsImage(pre: Bytes, items: seq<SdesItem>, post: Bytes)
    requires ValidItems(items)
    ensures ParseItems(AtCursor, pre + ItemList(items) + post, |pre|)
            == Ok(Parsed(items, |pre| + ItemsLength(items) + 1))
  {
    SliceMiddle(pre, ItemList(items), post);
    ParseItemList(pre + ItemList(items) + post, |pre|, |pre| + |ItemList(items)|, items);
  }

  lemma ChunksImageCons(chunks: seq<SdesChunk>)
    requires |chunks| > 0
    ensures W.ChunksImage(W.Corrected, chunks)
            == BE32(chunks[0].ssrc) + ItemList(chunks[0].items) + W.ChunksImage(W.Corrected, chunks[1..])
    ensures ChunksLength(chunks) == 4 + |ItemList(chunks[0].items)| + ChunksLength(chunks[1..])
  {
    var c := chunks[0];
    Assoc4(BE32(c.ssrc), W.ItemsImage(c.items), [SdesEnd], W.ChunksImage(W.Corrected, chunks[1..]));
  }

  /** A chunk list in `b` between `idx` and `last` splits into the first
      chunk's SSRC, its item list up to `next`, and the chunks after it. */
  lemma ChunkListSplit(b: Bytes, idx: nat, next: nat, last: nat, chunks: seq<SdesChunk>)
    requires |chunks| > 0 && next == idx + 4 + |ItemList(chunks[0].items)|
    requires last == idx + ChunksLength(chunks) <= |b|
    requires b[idx..last] == W.ChunksImage(W.Corrected, chunks)
    ensures idx + 4 <= |b| && U32At(b, idx) == chunks[0].ssrc
    ensures b[idx + 4..next] == ItemList(chunks[0].items)
    ensures last == next + ChunksLength(chunks[1..])
    ensures b[next..last] == W.ChunksImage(W.Corrected, chunks[1..])
  {
    var c := chunks[0];
    var x := BE32(c.ssrc);
    var y := ItemList(c.items);
    var z := W.ChunksImage(W.Corrected, chunks[1..]);
    ChunksImageCons(chunks);
    assert |x| == 4 && |z| == ChunksLength(chunks[1..]);
    SliceSplit3(b, idx, x, y, z);
    BE32Read(c.ssrc, b, idx);
  }

  /** A chunk whose SSRC and items are read at the cursor is followed by
      the rest of the chunk list. */
  lemma ParseChunksCons(b: Bytes, idx: nat, next: nat, c: SdesChunk, rest: seq<SdesChunk>, last: nat)
    requires idx + 4 <= |b| && U32At(b, idx) == c.ssrc
    requires ParseItems(AtCursor, b, idx + 4) == Ok(Parsed(c.items, next))
    requires ParseChunks(AtCursor, b, next, |rest|) == Ok(Parsed(rest, last))
    ensures ParseChunks(AtCursor, b, idx, |rest| + 1) == Ok(Parsed([c] + rest, last))
  {
  }

  /** A chunk list found at the cursor parses back chunk by chunk. */
  lemma {:induction false} ParseChunkList(b: Bytes, idx: nat, last: nat, chunks: seq<SdesChunk>)
    requires ValidChunks(chunks)
    requires last == idx + ChunksLength(chunks) <= |b|
    requires b[idx..last] == W.ChunksImage(W.Corrected, chunks)
    ensures ParseChunks(AtCursor, b, idx, |chunks|) == Ok(Parsed(chunks, last))
    decreases |chunks|
  {
    if |chunks| > 0 {
      var c := chunks[0];
      var next := idx + 4 + |ItemList(c.items)|;
      ChunkListSplit(b, idx, next, last, chunks);
      ParseItemList(b, idx + 4, next, c.items);
      ParseChunkList(b, next, last, chunks[1..]);
      ParseChunksCons(b, idx, next, c, chunks[1..], last);
      ConsTail(chunks);
    }
  }

  /** Chunks written with their end bytes parse back one by one. */
  lemma ParseChunksImage(pre: Bytes, chunks: seq<SdesChunk>, post: Bytes)
    requires ValidChunks(chunks)
    ensures ParseChunks(AtCursor, pre + W.ChunksImage(W.Corrected, chunks) + post, |pre|, |chunks|)
            == Ok(Parsed(chunks, |pre| + ChunksLength(chunks)))
  {
    SliceMiddle(pre, W.ChunksImage(W.Corrected, chunks), post);
    ParseChunkList(pre + W.ChunksImage(W.Corrected, chunks) + post, |pre|, |pre| + ChunksLength(chunks), chunks);
  }

  /** The bytes of an encoded source description: the common header, the
      chunk images, then zeros up to the announced whole-word size. */
  lemma EncodeSourceDescription(w: W.Writing, padding: bool, chunks: seq<SdesChunk>)
    requires |chunks| < 32 && SdesRawLength(chunks) < 4 * TWO16
    ensures var p := SourceDescription(padding, chunks);
            var img := W.ChunksImage(w, chunks);
            && AnnouncedSize(p).Ok?
            && 4 + |img| <= AnnouncedSize(p).value
            && W.Encode(w, p).Ok?
            && W.Encode(w, p).value
               == W.Header(padding, |chunks|, SourceDescriptionType, LengthWords(p).value) + img
                  + Zeros(AnnouncedSize(p).value - 4 - |img|)
  {
    var p := SourceDescription(padding, chunks);
    SdesSizeRoundsUp(p);
    var size := AnnouncedSize(p).value;
    var data := W.Header(padding, |chunks|, SourceDescriptionType, LengthWords(p).value) + W.ChunksImage(w, chunks);
    W.SourceDescriptionWrites(w, padding, chunks, Zeros(size));
    assert W.Encode(w, p) == W.WriteAt(Zeros(size), 0, data);
    W.WriteFromStart(Zeros(size), data);
    ZerosDrop(size, |data|);
  }

  /** A buffer whose header announces a source description and whose
      chunks parse at the cursor decodes to that source description. */
  lemma ParseSourceDescriptionAt(b: Bytes, padding: bool, chunks: seq<SdesChunk>, last: nat)
    requires |chunks| < 32 && 4 <= |b|
    requires b[0] == W.FirstByte(padding, |chunks|) && b[1] == SourceDescriptionType
    requires ParseChunks(AtCursor, b, 4, |chunks|) == Ok(Parsed(chunks, last))
    ensures ParseRtcpPacketAtCursor(b) == Ok(SourceDescription(padding, chunks))
  {
  }

  /** A source description header followed by chunks written with their
      end bytes decodes to those chunks, whatever follows them. */
  lemma ParseSourceDescriptionImage(header: Bytes, padding: bool, chunks: seq<SdesChunk>, tail: Bytes)
    requires |chunks| < 32 && ValidChunks(chunks)
    requires |header| == 4 && header[0] == W.FirstByte(padding, |chunks|) && header[1] == SourceDescriptionType
    ensures ParseRtcpPacketAtCursor(header + W.ChunksImage(W.Corrected, chunks) + tail)
            == Ok(SourceDescription(padding, chunks))
  {
    var b := header + W.ChunksImage(W.Corrected, chunks) + tail;
    ParseChunksImage(header, chunks, tail);
    assert b[0] == header[0] && b[1] == header[1];
    ParseSourceDescriptionAt(b, padding, chunks, 4 + ChunksLength(chunks));
  }

  /** With end bytes written and fields read at the cursor, a source
      description with well-formed items comes back unchanged, whatever
      bytes follow it. */
  lemma {:induction false} RoundTripSourceDescription(padding: bool, chunks: seq<SdesChunk>, rest: Bytes)
    requires |chunks| < 32 && SdesRawLength(chunks) < 4 * TWO16
    requires ValidChunks(chunks)
    ensures var p := SourceDescription(padding, chunks);
            && W.Encode(W.Corrected, p).Ok?
            && ParseRtcpPacketAtCursor(W.Encode(W.Corrected, p).value + rest) == Ok(p)
  {
    var p := SourceDescription(padding, chunks);
    var img := W.ChunksImage(W.Corrected, chunks);
    EncodeSourceDescription(W.Corrected, padding, chunks);
    var header := W.Header(padding, |chunks|, SourceDescriptionType, LengthWords(p).value);
    var tail := Zeros(AnnouncedSize(p).value - 4 - |img|);
    assert header[0] == W.FirstByte(padding, |chunks|) && header[1] == SourceDescriptionType;
    AssocTail(header, img, tail, rest);
    var b := header + img + (tail + rest);
    assert W.Encode(W.Corrected, p).value + rest == b;
    ParseSourceDescriptionImage(header, padding, chunks, tail + rest);
    assert ParseRtcpPacketAtCursor(b) == Ok(p);
  }

  /** The sizes the two-chunk example announces: 17 bytes rounded up to 20. */
  lemma TwoChunksSizes()
    ensures var p := SourceDescription(false, [SdesChunk(1, [SdesItem(1, [65])]), SdesChunk(2, [])]);
            && SdesRawLength(p.chunks) == 17
            && LengthWords(p) == Ok(4) && AnnouncedSize(p) == Ok(20)
  {
    var chunks := [SdesChunk(1, [SdesItem(1, [65])]), SdesChunk(2, [])];
    assert ChunksLength(chunks[1..]) == 5;
  }

  /** The two chunks as the serializer writes them, without end bytes. */
  lemma TwoChunksAsWrittenImage()
    ensures W.ChunksImage(W.AsWritten, [SdesChunk(1, [SdesItem(1, [65])]), SdesChunk(2, [])])
            == [0, 0, 0, 1, 1, 1, 65, 0, 0, 0, 2]
  {
    var chunks := [SdesChunk(1, [SdesItem(1, [65])]), SdesChunk(2, [])];
    assert W.ChunksImage(W.AsWritten, chunks[1..]) == [0, 0, 0, 2];
    assert W.ChunksImage(W.AsWritten, chunks) == [0, 0, 0, 1, 1, 1, 65] + [0, 0, 0, 2];
  }

  /** Two chunks as the serializer writes them, without end bytes: the
      header, eleven chunk bytes, then five zeros up to the 20 announced. */
  lemma AsWrittenTwoChunksBytes()
    ensures var p := SourceDescription(false, [SdesChunk(1, [SdesItem(1, [65])]), SdesChunk(2, [])]);
            && W.Encode(W.AsWritten, p).Ok?
            && W.Encode(W.AsWritten, p).value
               == W.Header(false, 2, SourceDescriptionType, 4) + [0, 0, 0, 1, 1, 1, 65, 0, 0, 0, 2] + Zeros(5)
  {
    var chunks := [SdesChunk(1, [SdesItem(1, [65])]), SdesChunk(2, [])];
    TwoChunksSizes();
    TwoChunksAsWrittenImage();
    EncodeSourceDescription(W.AsWritten, false, chunks);
  }

  /** The chunk bytes written without end bytes are exactly the corrected
      image of a different pair of chunks, followed by two zeros: the
      second SSRC is read one byte early. */
  lemma TwoChunksMisread()
    ensures var read := [SdesChunk(1, [SdesItem(1, [65])]), SdesChunk(512, [])];
            && ValidChunks(read)
            && W.ChunksImage(W.Corrected, read) == [0, 0, 0, 1, 1, 1, 65, 0, 0, 0, 2, 0, 0]
  {
    var read := [SdesChunk(1, [SdesItem(1, [65])]), SdesChunk(512, [])];
    assert W.ChunksImage(W.Corrected, read[1..]) == [0, 0, 2, 0, 0];
    assert W.ChunksImage(W.Corrected, read) == [0, 0, 0, 1, 1, 1, 65, 0] + [0, 0, 2, 0, 0];
  }

  /** As written, a second chunk is read from the byte after the first
      chunk's last item: its SSRC 2 comes back as 512. */
  lemma AsWrittenSourceDescriptionExample()
    ensures var p := SourceDescription(false, [SdesChunk(1, [SdesItem(1, [65])]), SdesChunk(2, [])]);
            && W.Encode(W.AsWritten, p).Ok?
            && ParseRtcpPacketAtCursor(W.Encode(W.AsWritten, p).value)
               == Ok(SourceDescription(false, [SdesChunk(1, [SdesItem(1, [65])]), SdesChunk(512, [])]))
  {
    var p := SourceDescription(false, [SdesChunk(1, [SdesItem(1, [65])]), SdesChunk(2, [])]);
    var read := [SdesChunk(1, [SdesItem(1, [65])]), SdesChunk(512, [])];
    var header := W.Header(false, 2, SourceDescriptionType, 4);
    assert W.Encode(W.AsWritten, p).Ok?
           && W.Encode(W.AsWritten, p).value == header + W.ChunksImage(W.Corrected, read) + Zeros(3) by {
      AsWrittenTwoChunksBytes();
      TwoChunksMisread();
      assert [0, 0, 0, 1, 1, 1, 65, 0, 0, 0, 2] + Zeros(5) == [0, 0, 0, 1, 1, 1, 65, 0, 0, 0, 2, 0, 0] + Zeros(3);
    }
    assert ValidChunks(read) by { TwoChunksMisread(); }
    ParseSourceDescriptionImage(header, false, read, Zeros(3));
  }
}
