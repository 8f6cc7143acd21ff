/** `RtcpPacketSerializer.Serialize`: writes a receiver report or a source
    description into a buffer; the other packet kinds write nothing. Two
    writes are not what section 6.4 of RFC 3550 asks for: the 24-bit
    cumulative loss is written as a 32-bit word with the cursor advanced by
    3, so the next field overwrites its low byte; and no SDES chunk gets its
    end-of-items byte. `Corrected` writes the 24-bit field and the end byte. */
module RtcpSerializer {
  import opened Results
  import opened Bytes
  import opened Rtcp
  import SpanWrites

  datatype Writing = AsWritten | Corrected

  /** `Version << 6 | Padding << 5 | (ushort)Count` cast to a byte, written bit by bit:
      the count's bits 5-7 are or-ed into the version and padding bits. */
  function FirstByte(padding: bool, count: nat): (r: uint8)
    ensures count < 32 ==> r == 128 + (if padding then 32 else 0) + count
    ensures count < 32 ==> r / 64 == RtcpVersion && r % 32 == count && ((r / 32) % 2 == 1) == padding
  {
    var c := count % 0x100;
    128 + 64 * ((c / 64) % 2) + 32 * (if padding || (c / 32) % 2 == 1 then 1 else 0) + c % 32
  }

  /** A write of `data` at `i`; `Span` writes past the end throw. */
  function WriteAt(buf: Bytes, i: nat, data: Bytes): (r: Result<Bytes>)
    ensures r.Ok? <==> i + |data| <= |buf|
    ensures r.Fail? ==> r.error == OutOfRange
    ensures r.Ok? ==> |r.value| == |buf|
  {
    if i + |data| > |buf| then Fail(OutOfRange) else Ok(buf[..i] + data + buf[i + |data|..])
  }

  /** A write at the start keeps the buffer's tail. */
  lemma WriteFromStart(buf: Bytes, data: Bytes)
    requires |data| <= |buf|
    ensures WriteAt(buf, 0, data).Ok?
    ensures WriteAt(buf, 0, data).value == data + buf[|data|..] + []
  {
    assert buf[..0] == [];
  }

  /** A write changes exactly the bytes it covers. */
  lemma WriteAtElems(buf: Bytes, i: nat, data: Bytes)
    requires i + |data| <= |buf|
    ensures forall j :: 0 <= j < |buf| ==>
              WriteAt(buf, i, data).value[j] == (if i <= j < i + |data| then data[j - i] else buf[j])
  {
  }

  /** The bytes written for the cumulative loss and the cursor advance after them. */
  function CumulativeLostBytes(w: Writing, cumulative: uint32): (r: Bytes)
    ensures |r| == (if w == AsWritten then 4 else 3)
  {
    if w == AsWritten then BE32(cumulative) else BE32(cumulative % 0x100_0000)[1..]
  }

  /** One report block, field by field, as the loop body writes it: the SSRC,
      fraction and cumulative loss, then the four 32-bit fields from offset 8. */
  function WriteReport(w: Writing, buf: Bytes, idx: nat, r: ReceptionReport): Result<Bytes>
  {
    var b :- WriteReportHead(w, buf, idx, r);
    WriteReportTail(b, idx, r)
  }

  function WriteReportHead(w: Writing, buf: Bytes, idx: nat, r: ReceptionReport): Result<Bytes>
  {
    var b1 :- WriteAt(buf, idx, BE32(r.ssrc));
    var b2 :- WriteAt(b1, idx + 4, [r.fractionLost]);
    WriteAt(b2, idx + 5, CumulativeLostBytes(w, r.cumulativeLost))
  }

  function WriteReportTail(buf: Bytes, idx: nat, r: ReceptionReport): Result<Bytes>
  {
    var b4 :- WriteAt(buf, idx + 8, BE32(r.extendedHighestSequence));
    var b5 :- WriteAt(b4, idx + 12, BE32(FromInt32(r.jitter)));
    var b6 :- WriteAt(b5, idx + 16, BE32(r.lastSenderReport));
    WriteAt(b6, idx + 20, BE32(r.delaySinceLastSenderReport))
  }

  lemma WriteReportLength(w: Writing, buf: Bytes, idx: nat, r: ReceptionReport)
    ensures WriteReport(w, buf, idx, r).Ok? <==> idx + ReportBlockLength <= |buf|
    ensures WriteReport(w, buf, idx, r).Fail? ==> WriteReport(w, buf, idx, r).error == OutOfRange
    ensures WriteReport(w, buf, idx, r).Ok? ==> |WriteReport(w, buf, idx, r).value| == |buf|
  {
  }

  function HeadImage(w: Writing, r: ReceptionReport): (img: Bytes)
    ensures |img| == 5 + (if w == AsWritten then 4 else 3)
  {
    BE32(r.ssrc) + [r.fractionLost] + CumulativeLostBytes(w, r.cumulativeLost)
  }

  function TailImage(r: ReceptionReport): (img: Bytes)
    ensures |img| == 16
  {
    BE32(r.extendedHighestSequence) + BE32(FromInt32(r.jitter))
    + BE32(r.lastSenderReport) + BE32(r.delaySinceLastSenderReport)
  }

  /** The 24 bytes a report block leaves in the buffer. */
  function ReportImage(w: Writing, r: ReceptionReport): (img: Bytes)
    ensures |img| == ReportBlockLength
  {
    HeadImage(w, r)[..8] + TailImage(r)
  }

  lemma WriteReportHeadImage(w: Writing, buf: Bytes, idx: nat, r: ReceptionReport)
    requires idx + ReportBlockLength <= |buf|
    ensures WriteReportHead(w, buf, idx, r).Ok?
    ensures var b := WriteReportHead(w, buf, idx, r).value;
            var img := HeadImage(w, r);
            |b| == |buf| && forall j :: 0 <= j < |buf| ==>
              b[j] == (if idx <= j < idx + |img| then img[j - idx] else buf[j])
  {
    WriteAtElems(buf, idx, BE32(r.ssrc));
    var b1 := WriteAt(buf, idx, BE32(r.ssrc)).value;
    WriteAtElems(b1, idx + 4, [r.fractionLost]);
    var b2 := WriteAt(b1, idx + 4, [r.fractionLost]).value;
    WriteAtElems(b2, idx + 5, CumulativeLostBytes(w, r.cumulativeLost));
  }

  lemma WriteReportTailImage(buf: Bytes, idx: nat, r: ReceptionReport)
    requires idx + ReportBlockLength <= |buf|
    ensures WriteReportTail(buf, idx, r).Ok?
    ensures var b := WriteReportTail(buf, idx, r).value;
            var img := TailImage(r);
            |b| == |buf| && forall j :: 0 <= j < |buf| ==>
              b[j] == (if idx + 8 <= j < idx + ReportBlockLength then img[j - idx - 8] else buf[j])
  {
    WriteAtElems(buf, idx + 8, BE32(r.extendedHighestSequence));
    var b4 := WriteAt(buf, idx + 8, BE32(r.extendedHighestSequence)).value;
    WriteAtElems(b4, idx + 12, BE32(FromInt32(r.jitter)));
    var b5 := WriteAt(b4, idx + 12, BE32(FromInt32(r.jitter))).value;
    WriteAtElems(b5, idx + 16, BE32(r.lastSenderReport));
    var b6 := WriteAt(b5, idx + 16, BE32(r.lastSenderReport)).value;
    WriteAtElems(b6, idx + 20, BE32(r.delaySinceLastSenderReport));
  }

  /** The field-by-field writes leave exactly the report image in place: the
      fourth byte of the 32-bit cumulative loss is overwritten by the next field. */
  lemma WriteReportImage(w: Writing, buf: Bytes, idx: nat, r: ReceptionReport)
    requires idx + ReportBlockLength <= |buf|
    ensures WriteReport(w, buf, idx, r).Ok?
    ensures WriteReport(w, buf, idx, r).value
              == buf[..idx] + ReportImage(w, r) + buf[idx + ReportBlockLength..]
  {
    WriteReportHeadImage(w, buf, idx, r);
    var b := WriteReportHead(w, buf, idx, r).value;
    WriteReportTailImage(b, idx, r);
    var res := WriteReportTail(b, idx, r).value;
    var head := HeadImage(w, r);
    var tail := TailImage(r);
    var img := ReportImage(w, r);
    assert forall k :: 0 <= k < 8 ==> img[k] == head[k];
    assert forall k :: 8 <= k < 24 ==> img[k] == tail[k - 8];
    SpliceElems(buf, idx, img, res);
  }

  function WriteReports(w: Writing, buf: Bytes, idx: nat, reports: seq<ReceptionReport>): Result<Bytes>
    decreases |reports|
  {
    if |reports| == 0 then Ok(buf)
    else
      var b :- WriteReport(w, buf, idx, reports[0]);
      WriteReports(w, b, idx + ReportBlockLength, reports[1..])
  }

  function ReportsImage(w: Writing, reports: seq<ReceptionReport>): (img: Bytes)
    ensures |img| == 24 * |reports|
  {
    if |reports| == 0 then [] else ReportImage(w, reports[0]) + ReportsImage(w, reports[1..])
  }

  lemma {:induction false} WriteReportsLength(w: Writing, buf: Bytes, idx: nat, reports: seq<ReceptionReport>)
    ensures WriteReports(w, buf, idx, reports).Ok? <==>
              (|reports| == 0 || idx + 24 * |reports| <= |buf|)
    ensures WriteReports(w, buf, idx, reports).Fail? ==> WriteReports(w, buf, idx, reports).error == OutOfRange
    ensures WriteReports(w, buf, idx, reports).Ok? ==> |WriteReports(w, buf, idx, reports).value| == |buf|
    decreases |reports|
  {
    if |reports| > 0 {
      WriteReportLength(w, buf, idx, reports[0]);
      if idx + ReportBlockLength <= |buf| {
        WriteReportImage(w, buf, idx, reports[0]);
        var b := WriteReport(w, buf, idx, reports[0]).value;
        WriteReportsLength(w, b, idx + ReportBlockLength, reports[1..]);
      }
    }
  }

  /** A report written over any 24 bytes between `pre` and `post`. */
  lemma WriteReportIn(w: Writing, pre: Bytes, mid: Bytes, post: Bytes, r: ReceptionReport)
    requires |mid| == ReportBlockLength
    ensures WriteReport(w, pre + mid + post, |pre|, r).Ok?
    ensures WriteReport(w, pre + mid + post, |pre|, r).value == pre + ReportImage(w, r) + post
  {
    var buf := pre + mid + post;
    WriteReportImage(w, buf, |pre|, r);
    assert buf[..|pre|] == pre && buf[|pre| + 24..] == post;
  }

  lemma WriteReportsConsIn(w: Writing, pre: Bytes, mid: Bytes, post: Bytes, reports: seq<ReceptionReport>)
    requires |reports| > 0 && |mid| == 24 * |reports|
    ensures WriteReports(w, pre + mid + post, |pre|, reports)
            == WriteReports(w, (pre + ReportImage(w, reports[0])) + mid[24..] + post, |pre| + 24, reports[1..])
  {
    var buf := pre + mid + post;
    assert buf == pre + mid[..24] + (mid[24..] + post);
    WriteReportIn(w, pre, mid[..24], mid[24..] + post, reports[0]);
    assert pre + ReportImage(w, reports[0]) + (mid[24..] + post)
           == (pre + ReportImage(w, reports[0])) + mid[24..] + post;
  }

  lemma ReportsImageRegroup(w: Writing, pre: Bytes, reports: seq<ReceptionReport>, post: Bytes)
    requires |reports| > 0
    ensures (pre + ReportImage(w, reports[0])) + ReportsImage(w, reports[1..]) + post
            == pre + ReportsImage(w, reports) + post
  {
    assert ReportsImage(w, reports) == ReportImage(w, reports[0]) + ReportsImage(w, reports[1..]);
  }

  /** Writing the list over its region leaves exactly the list's image there. */
  lemma {:induction false} WriteReportsIn(w: Writing, pre: Bytes, mid: Bytes, post: Bytes, reports: seq<ReceptionReport>)
    requires |mid| == 24 * |reports|
    ensures WriteReports(w, pre + mid + post, |pre|, reports).Ok?
    ensures WriteReports(w, pre + mid + post, |pre|, reports).value == pre + ReportsImage(w, reports) + post
    decreases |reports|
  {
    if |reports| > 0 {
      var first := ReportImage(w, reports[0]);
      var rest := ReportsImage(w, reports[1..]);
      WriteReportsConsIn(w, pre, mid, post, reports);
      WriteReportsIn(w, pre + first, mid[24..], post, reports[1..]);
      ReportsImageRegroup(w, pre, reports, post);
    } else {
      assert pre + mid + post == pre + [] + post;
    }
  }

  lemma WriteReportsImage(w: Writing, buf: Bytes, idx: nat, reports: seq<ReceptionReport>)
    requires idx + 24 * |reports| <= |buf|
    ensures WriteReports(w, buf, idx, reports).Ok?
    ensures WriteReports(w, buf, idx, reports).value
              == buf[..idx] + ReportsImage(w, reports) + buf[idx + 24 * |reports|..]
  {
    var end := idx + 24 * |reports|;
    assert buf == buf[..idx] + buf[idx..end] + buf[end..];
    WriteReportsIn(w, buf[..idx], buf[idx..end], buf[end..], reports);
  }

  /** Items of one chunk: type, length byte (the text length truncated to a byte), text. */
  function ItemsImage(items: seq<SdesItem>): (img: Bytes)
    ensures |img| == ItemsLength(items)
  {
    if |items| == 0 then []
    else [items[0].itemType, |items[0].text| % 0x100] + items[0].text + ItemsImage(items[1..])
  }

  function ChunksImage(w: Writing, chunks: seq<SdesChunk>): (img: Bytes)
    ensures |img| == ChunksLength(chunks) - (if w == AsWritten then |chunks| else 0)
  {
    if |chunks| == 0 then []
    else
      BE32(chunks[0].ssrc) + ItemsImage(chunks[0].items) + (if w == AsWritten then [] else [SdesEnd])
      + ChunksImage(w, chunks[1..])
  }

  /** The four-byte common header: first byte, packet type, length in words minus one. */
  function Header(padding: bool, count: nat, packetType: uint8, words: uint16): (h: Bytes)
    ensures |h| == 4
  {
    [FirstByte(padding, count), packetType] + BE16(words)
  }

  /** The common header's writes (RtcpPacketSerializer.cs:45-50): two
      indexer stores, then the 16-bit length. */
  function HeaderSteps(padding: bool, count: nat, packetType: uint8, words: uint16): seq<SpanWrites.Step>
  {
    [SpanWrites.Put([FirstByte(padding, count)]), SpanWrites.Put([packetType]), SpanWrites.Put(BE16(words))]
  }

  /** The item writes of a chunk (RtcpPacketSerializer.cs:55-64): type and
      length byte stored, the text copied. */
  function ItemsSteps(items: seq<SdesItem>): seq<SpanWrites.Step>
  {
    if |items| == 0 then []
    else [SpanWrites.Put([items[0].itemType]), SpanWrites.Put([|items[0].text| % 0x100]),
          SpanWrites.Copy(items[0].text)] + ItemsSteps(items[1..])
  }

  /** The chunk writes (RtcpPacketSerializer.cs:51-65): the SSRC, the items,
      and under `Corrected` the end byte. */
  function ChunksSteps(w: Writing, chunks: seq<SdesChunk>): seq<SpanWrites.Step>
  {
    if |chunks| == 0 then []
    else
      [SpanWrites.Put(BE32(chunks[0].ssrc))] + ItemsSteps(chunks[0].items)
      + (if w == AsWritten then [] else [SpanWrites.Put([SdesEnd])])
      + ChunksSteps(w, chunks[1..])
  }

  /** Serialization into `buf`: the updated buffer, or the exception of the
      first write past its end. A receiver report fails only through
      `BinaryPrimitives` writes and indexer stores, out of range; a source
      description also copies item texts, and a text whose slice exists but
      is too short is an argument error. */
  function Serialize(w: Writing, p: RtcpPacket, buf: Bytes): (r: Result<Bytes>)
    ensures r.Ok? ==> |r.value| == |buf|
    ensures !p.ReceiverReport? && !p.SourceDescription? ==> r.Ok? && r.value == buf
    ensures r.Fail? ==> r.error == OutOfRange || r.error == Argument
    ensures r.Fail? && p.ReceiverReport? ==> r.error == OutOfRange
  {
    match p
    case ReceiverReport(padding, ssrc, reports) =>
      var header := Header(padding, |reports|, ReceiverReportType, LengthWords(p).value);
      var b :- WriteAt(buf, 0, header + BE32(ssrc));
      WriteReportsLength(w, b, ReportHeaderLength, reports);
      WriteReports(w, b, ReportHeaderLength, reports)
    case SourceDescription(padding, chunks) =>
      var words := LengthWords(p).value;
      var steps := HeaderSteps(padding, |chunks|, SourceDescriptionType, words) + ChunksSteps(w, chunks);
      (match SpanWrites.Overrun(steps, 0, |buf|)
       case Some(e) => Fail(e)
       case None => WriteAt(buf, 0, Header(padding, |chunks|, SourceDescriptionType, words) + ChunksImage(w, chunks)))
    case _ => Ok(buf)
  }

  lemma HeaderStepsImage(padding: bool, count: nat, packetType: uint8, words: uint16)
    ensures SpanWrites.Image(HeaderSteps(padding, count, packetType, words)) == Header(padding, count, packetType, words)
    ensures forall j :: 0 <= j < |HeaderSteps(padding, count, packetType, words)| ==>
              HeaderSteps(padding, count, packetType, words)[j].Put?
  {
    var a, b, c := SpanWrites.Put([FirstByte(padding, count)]), SpanWrites.Put([packetType]), SpanWrites.Put(BE16(words));
    assert HeaderSteps(padding, count, packetType, words) == [a] + ([b] + [c]);
    SpanWrites.ImageOne(a); SpanWrites.ImageOne(b); SpanWrites.ImageOne(c);
    SpanWrites.TotalWidthConcat([b], [c]);
    SpanWrites.TotalWidthConcat([a], [b] + [c]);
  }

  /** No step of a source description is a skip. */
  predicate NoSkips(steps: seq<SpanWrites.Step>)
  {
    forall j :: 0 <= j < |steps| ==> !steps[j].Skip?
  }

  lemma NoSkipsConcat(a: seq<SpanWrites.Step>, b: seq<SpanWrites.Step>)
    requires NoSkips(a) && NoSkips(b)
    ensures NoSkips(a + b)
  {
    assert forall j :: |a| <= j < |a + b| ==> (a + b)[j] == b[j - |a|];
  }

  /** One item's writes: its type and length stored, its text copied. */
  lemma ItemHeadImage(it: SdesItem)
    ensures var head := [SpanWrites.Put([it.itemType]), SpanWrites.Put([|it.text| % 0x100]), SpanWrites.Copy(it.text)];
            SpanWrites.Image(head) == [it.itemType, |it.text| % 0x100] + it.text && NoSkips(head)
  {
    var a, b, c := SpanWrites.Put([it.itemType]), SpanWrites.Put([|it.text| % 0x100]), SpanWrites.Copy(it.text);
    assert [a, b, c] == [a] + ([b] + [c]);
    SpanWrites.ImageOne(a); SpanWrites.ImageOne(b); SpanWrites.ImageOne(c);
    SpanWrites.TotalWidthConcat([b], [c]);
    SpanWrites.TotalWidthConcat([a], [b] + [c]);
  }

  lemma {:induction false} ItemsStepsImage(items: seq<SdesItem>)
    ensures SpanWrites.Image(ItemsSteps(items)) == ItemsImage(items)
    ensures NoSkips(ItemsSteps(items))
  {
    if |items| > 0 {
      var it := items[0];
      var head := [SpanWrites.Put([it.itemType]), SpanWrites.Put([|it.text| % 0x100]), SpanWrites.Copy(it.text)];
      var rest := ItemsSteps(items[1..]);
      ItemHeadImage(it);
      ItemsStepsImage(items[1..]);
      SpanWrites.TotalWidthConcat(head, rest);
      NoSkipsConcat(head, rest);
    }
  }

  /** One chunk's writes before the chunks after it: the SSRC, the items,
      and under `Corrected` the end byte. */
  lemma ChunkHeadImage(w: Writing, c: SdesChunk)
    ensures var head := [SpanWrites.Put(BE32(c.ssrc))] + ItemsSteps(c.items)
                        + (if w == AsWritten then [] else [SpanWrites.Put([SdesEnd])]);
            && SpanWrites.Image(head) == BE32(c.ssrc) + ItemsImage(c.items) + (if w == AsWritten then [] else [SdesEnd])
            && NoSkips(head)
  {
    var s := [SpanWrites.Put(BE32(c.ssrc))];
    var items := ItemsSteps(c.items);
    var e := if w == AsWritten then [] else [SpanWrites.Put([SdesEnd])];
    ItemsStepsImage(c.items);
    SpanWrites.ImageOne(SpanWrites.Put(BE32(c.ssrc)));
    SpanWrites.ImageOne(SpanWrites.Put([SdesEnd]));
    SpanWrites.TotalWidthConcat(s, items);
    SpanWrites.TotalWidthConcat(s + items, e);
    NoSkipsConcat(s, items);
    NoSkipsConcat(s + items, e);
  }

  lemma {:induction false} ChunksStepsImage(w: Writing, chunks: seq<SdesChunk>)
    ensures SpanWrites.Image(ChunksSteps(w, chunks)) == ChunksImage(w, chunks)
    ensures NoSkips(ChunksSteps(w, chunks))
  {
    if |chunks| > 0 {
      var c := chunks[0];
      var head := [SpanWrites.Put(BE32(c.ssrc))] + ItemsSteps(c.items)
                  + (if w == AsWritten then [] else [SpanWrites.Put([SdesEnd])]);
      var rest := ChunksSteps(w, chunks[1..]);
      ChunkHeadImage(w, c);
      ChunksStepsImage(w, chunks[1..]);
      SpanWrites.TotalWidthConcat(head, rest);
      NoSkipsConcat(head, rest);
    }
  }

  /** A source description is written exactly when its bytes fit the
      buffer, and then lands at its start. */
  lemma SourceDescriptionWrites(w: Writing, padding: bool, chunks: seq<SdesChunk>, buf: Bytes)
    ensures var p := SourceDescription(padding, chunks);
            var data := Header(padding, |chunks|, SourceDescriptionType, LengthWords(p).value) + ChunksImage(w, chunks);
            && (Serialize(w, p, buf).Ok? <==> |data| <= |buf|)
            && (|data| <= |buf| ==> Serialize(w, p, buf) == WriteAt(buf, 0, data))
  {
    var p := SourceDescription(padding, chunks);
    var words := LengthWords(p).value;
    var h := HeaderSteps(padding, |chunks|, SourceDescriptionType, words);
    HeaderStepsImage(padding, |chunks|, SourceDescriptionType, words);
    ChunksStepsImage(w, chunks);
    SpanWrites.TotalWidthConcat(h, ChunksSteps(w, chunks));
    NoSkipsConcat(h, ChunksSteps(w, chunks));
    SpanWrites.FitsWithoutSkips(h + ChunksSteps(w, chunks), 0, |buf|);
  }

  /** The writes of one chunk with one item: SSRC, type and length, then
      the text copy and, under `Corrected`, the end byte. */
  lemma OneChunkSteps(w: Writing, ssrc: uint32, it: SdesItem)
    ensures ChunksSteps(w, [SdesChunk(ssrc, [it])])
            == [SpanWrites.Put(BE32(ssrc)), SpanWrites.Put([it.itemType]), SpanWrites.Put([|it.text| % 0x100])]
               + ([SpanWrites.Copy(it.text)] + (if w == AsWritten then [] else [SpanWrites.Put([SdesEnd])]))
  {
    var chunks := [SdesChunk(ssrc, [it])];
    var p, a, b, c := SpanWrites.Put(BE32(ssrc)), SpanWrites.Put([it.itemType]), SpanWrites.Put([|it.text| % 0x100]), SpanWrites.Copy(it.text);
    var e := if w == AsWritten then [] else [SpanWrites.Put([SdesEnd])];
    assert chunks[1..] == [] && chunks[0].items[1..] == [];
    assert ItemsSteps(chunks[0].items) == [a, b, c] + [];
    assert ChunksSteps(w, chunks) == [p] + [a, b, c] + e + [];
    assert [p] + [a, b, c] + e + [] == [p, a, b] + ([c] + e);
  }

  /** The SSRC, type and length writes of one chunk with one item take six bytes. */
  lemma OneChunkFixedWidth(ssrc: uint32, it: SdesItem)
    ensures SpanWrites.TotalWidth([SpanWrites.Put(BE32(ssrc)), SpanWrites.Put([it.itemType]), SpanWrites.Put([|it.text| % 0x100])]) == 6
  {
    var p, a, b := SpanWrites.Put(BE32(ssrc)), SpanWrites.Put([it.itemType]), SpanWrites.Put([|it.text| % 0x100]);
    assert [p, a, b] == [p] + ([a] + [b]);
    SpanWrites.ImageOne(p); SpanWrites.ImageOne(a); SpanWrites.ImageOne(b);
    SpanWrites.TotalWidthConcat([a], [b]);
    SpanWrites.TotalWidthConcat([p], [a] + [b]);
  }

  /** The writes of a source description of one chunk with one item: ten
      bytes of plain writes, the text copy, then the corrected end byte. */
  lemma OneItemSteps(w: Writing, padding: bool, ssrc: uint32, t: uint8, text: Bytes, words: uint16)
    returns (pre: seq<SpanWrites.Step>)
    ensures HeaderSteps(padding, 1, SourceDescriptionType, words) + ChunksSteps(w, [SdesChunk(ssrc, [SdesItem(t, text)])])
            == pre + ([SpanWrites.Copy(text)] + (if w == AsWritten then [] else [SpanWrites.Put([SdesEnd])]))
    ensures SpanWrites.TotalWidth(pre) == 10
    ensures forall j :: 0 <= j < |pre| ==> pre[j].Put?
  {
    var it := SdesItem(t, text);
    var h := HeaderSteps(padding, 1, SourceDescriptionType, words);
    var fixed := [SpanWrites.Put(BE32(ssrc)), SpanWrites.Put([t]), SpanWrites.Put([|text| % 0x100])];
    var tail := [SpanWrites.Copy(text)] + (if w == AsWritten then [] else [SpanWrites.Put([SdesEnd])]);
    OneChunkSteps(w, ssrc, it);
    Assoc(h, fixed, tail);
    pre := h + fixed;
    HeaderStepsImage(padding, 1, SourceDescriptionType, words);
    OneChunkFixedWidth(ssrc, it);
    SpanWrites.TotalWidthConcat(h, fixed);
    assert forall j :: |h| <= j < |pre| ==> pre[j] == fixed[j - |h|];
  }

  /** A source description of one chunk with one item: its fixed ten bytes
      (header, SSRC, item type and length) are plain writes, out of range
      past the end; the text is copied, an argument error when the buffer
      ends inside it; the corrected end byte is a plain write again. */
  lemma OneItemOverrun(w: Writing, padding: bool, ssrc: uint32, t: uint8, text: Bytes, buf: Bytes)
    ensures var p := SourceDescription(padding, [SdesChunk(ssrc, [SdesItem(t, text)])]);
            && (|buf| < 10 ==> Serialize(w, p, buf) == Fail(OutOfRange))
            && (10 <= |buf| < 10 + |text| ==> Serialize(w, p, buf) == Fail(Argument))
            && (w == Corrected && |buf| == 10 + |text| ==> Serialize(w, p, buf) == Fail(OutOfRange))
            && (|buf| >= 10 + |text| + (if w == Corrected then 1 else 0) ==> Serialize(w, p, buf).Ok?)
  {
    var e := if w == AsWritten then [] else [SpanWrites.Put([SdesEnd])];
    var c := SpanWrites.Copy(text);
    var pre := OneItemSteps(w, padding, ssrc, t, text, LengthWords(SourceDescription(padding, [SdesChunk(ssrc, [SdesItem(t, text)])])).value);
    SpanWrites.PutsOnly(pre, 0, |buf|);
    SpanWrites.OverrunConcat(pre, [c] + e, 0, |buf|);
    SpanWrites.OverrunConcat([c], e, 10, |buf|);
    SpanWrites.OverrunOne(c, 10, |buf|);
    SpanWrites.ImageOne(c);
    if w == Corrected {
      SpanWrites.OverrunOne(SpanWrites.Put([SdesEnd]), 10 + |text|, |buf|);
    }
  }

  /** The bytes a packet leaves in a zero-filled buffer of its announced size. */
  function Encode(w: Writing, p: RtcpPacket): Result<Bytes>
  {
    var size :- AnnouncedSize(p);
    Serialize(w, p, Zeros(size))
  }
}
