/** What the RTCP parser recovers from the serializer's bytes. With both
    fixes (fields read at the cursor, 24-bit loss and end bytes written) a
    receiver report or source description comes back unchanged; as written,
    a receiver report comes back with its SSRC replaced by the header word
    and every cumulative loss shifted right by eight bits. */
module RtcpCodec {
  import opened Results
  import opened Bytes
  import opened Rtcp
  import opened RtcpParser
  import W = RtcpSerializer

  /** The report the parser reads back from a block the serializer wrote. */
  function ReportAsRead(w: W.Writing, r: ReceptionReport): ReceptionReport
  {
    if w == W.AsWritten then r.(cumulativeLost := r.cumulativeLost / 0x100)
    else r.(cumulativeLost := r.cumulativeLost % 0x100_0000)
  }

  function ReportsAsRead(w: W.Writing, reports: seq<ReceptionReport>): (r: seq<ReceptionReport>)
    ensures |r| == |reports|
  {
    if |reports| == 0 then [] else [ReportAsRead(w, reports[0])] + ReportsAsRead(w, reports[1..])
  }

  lemma CumulativeLostRead(w: W.Writing, c: uint32)
    ensures var bs := W.CumulativeLostBytes(w, c);
            (bs[0] as int) * TWO16 + (bs[1] as int) * 0x100 + bs[2]
            == (if w == W.AsWritten then c / 0x100 else c % 0x100_0000)
  {
    var bs := W.CumulativeLostBytes(w, c);
    if w == W.AsWritten {
      var y := c / TWO16;
      var z := c % TWO16;
      assert bs == [y / 0x100, y % 0x100, z / 0x100, z % 0x100];
      assert c == y * TWO16 + z;
      assert c / 0x100 == y * 0x100 + z / 0x100;
      assert y == (y / 0x100) * 0x100 + y % 0x100;
    } else {
      var d := c % 0x100_0000;
      var y := d / TWO16;
      var z := d % TWO16;
      assert y < 0x100;
      assert bs == [y % 0x100, z / 0x100, z % 0x100];
      assert d == y * TWO16 + z;
    }
  }

  lemma ReportAtImage(w: W.Writing, pre: Bytes, r: ReceptionReport, post: Bytes)
    ensures var buf := pre + W.ReportImage(w, r) + post;
            |pre| + ReportBlockLength <= |buf| && ReportAt(buf, |pre|) == ReportAsRead(w, r)
  {
    var buf := pre + W.ReportImage(w, r) + post;
    var bs := W.CumulativeLostBytes(w, r.cumulativeLost);
    var h8 := W.HeadImage(w, r)[..8];
    var e := BE32(r.extendedHighestSequence);
    var j := BE32(FromInt32(r.jitter));
    var l := BE32(r.lastSenderReport);
    var d := BE32(r.delaySinceLastSenderReport);
    assert h8 == BE32(r.ssrc) + [r.fractionLost, bs[0], bs[1], bs[2]];
    assert buf == pre + BE32(r.ssrc) + ([r.fractionLost, bs[0], bs[1], bs[2]] + e + j + l + d + post);
    BE32ReadIn(pre, r.ssrc, [r.fractionLost, bs[0], bs[1], bs[2]] + e + j + l + d + post);
    assert buf == (pre + h8) + e + (j + l + d + post);
    BE32ReadIn(pre + h8, r.extendedHighestSequence, j + l + d + post);
    assert buf == (pre + h8 + e) + j + (l + d + post);
    BE32ReadIn(pre + h8 + e, FromInt32(r.jitter), l + d + post);
    assert buf == (pre + h8 + e + j) + l + (d + post);
    BE32ReadIn(pre + h8 + e + j, r.lastSenderReport, d + post);
    assert buf == (pre + h8 + e + j + l) + d + post;
    BE32ReadIn(pre + h8 + e + j + l, r.delaySinceLastSenderReport, post);
    assert buf[|pre| + 4] == r.fractionLost;
    assert buf[|pre| + 5] == bs[0] && buf[|pre| + 6] == bs[1] && buf[|pre| + 7] == bs[2];
    CumulativeLostRead(w, r.cumulativeLost);
  }

  lemma ParseReportsCons(buf: Bytes, idx: nat, n: nat)
    requires n > 0 && idx + ReportBlockLength <= |buf|
    requires ParseReports(buf, idx + ReportBlockLength, n - 1).Ok?
    ensures var r := ParseReports(buf, idx, n);
            var tail := ParseReports(buf, idx + ReportBlockLength, n - 1).value;
            r.Ok? && r.value.value == [ReportAt(buf, idx)] + tail.value && r.value.next == tail.next
  {
  }

  /** The buffer around a non-empty list image, regrouped around its first block. */
  lemma ReportsImageSplit(w: W.Writing, pre: Bytes, reports: seq<ReceptionReport>, post: Bytes)
    requires |reports| > 0
    ensures var first := W.ReportImage(w, reports[0]);
            var rest := W.ReportsImage(w, reports[1..]);
            && pre + W.ReportsImage(w, reports) + post == pre + first + (rest + post)
            && pre + W.ReportsImage(w, reports) + post == (pre + first) + rest + post
            && |first| == ReportBlockLength
  {
    var first := W.ReportImage(w, reports[0]);
    var rest := W.ReportsImage(w, reports[1..]);
    assert W.ReportsImage(w, reports) == first + rest;
    Regroup(pre, first, rest, post);
  }

  /** One parsing step over a list image: the first block as read, then the rest. */
  lemma ParseReportsImageCons(w: W.Writing, pre: Bytes, reports: seq<ReceptionReport>, post: Bytes)
    requires |reports| > 0
    requires ParseReports((pre + W.ReportImage(w, reports[0])) + W.ReportsImage(w, reports[1..]) + post,
                          |pre + W.ReportImage(w, reports[0])|, |reports[1..]|).Ok?
    ensures var r := ParseReports(pre + W.ReportsImage(w, reports) + post, |pre|, |reports|);
            var tail := ParseReports((pre + W.ReportImage(w, reports[0])) + W.ReportsImage(w, reports[1..]) + post,
                                     |pre + W.ReportImage(w, reports[0])|, |reports[1..]|).value;
            && r.Ok?
            && r.value.value == [ReportAsRead(w, reports[0])] + tail.value
            && r.value.next == tail.next
  {
    var rest := W.ReportsImage(w, reports[1..]);
    ReportsImageSplit(w, pre, reports, post);
    ReportAtImage(w, pre, reports[0], rest + post);
    ParseReportsCons(pre + W.ReportsImage(w, reports) + post, |pre|, |reports|);
  }

  /** Report blocks laid out by the serializer parse back block by block. */
  lemma {:induction false} ParseReportsImage(w: W.Writing, pre: Bytes, reports: seq<ReceptionReport>, post: Bytes)
    ensures var r := ParseReports(pre + W.ReportsImage(w, reports) + post, |pre|, |reports|);
            && r.Ok?
            && r.value.next == |pre| + 24 * |reports|
            && r.value.value == ReportsAsRead(w, reports)
    decreases |reports|
  {
    if |reports| > 0 {
      ParseReportsImage(w, pre + W.ReportImage(w, reports[0]), reports[1..], post);
      ParseReportsImageCons(w, pre, reports, post);
    }
  }

  /** The bytes of an encoded receiver report: the common header, the
      sender's SSRC, then the report images. */
  lemma EncodeReceiverReport(w: W.Writing, padding: bool, ssrc: uint32, reports: seq<ReceptionReport>)
    requires |reports| < 32
    ensures var p := ReceiverReport(padding, ssrc, reports);
            && W.Encode(w, p).Ok?
            && W.Encode(w, p).value
               == W.Header(padding, |reports|, ReceiverReportType, 1 + 6 * |reports|) + BE32(ssrc)
                  + W.ReportsImage(w, reports)
  {
    var p := ReceiverReport(padding, ssrc, reports);
    ReportSizeExact(p);
    var z := Zeros(8 + 24 * |reports|);
    var hs := W.Header(padding, |reports|, ReceiverReportType, 1 + 6 * |reports|) + BE32(ssrc);
    assert LengthWords(p).value == 1 + 6 * |reports|;
    assert W.Encode(w, p) == W.Serialize(w, p, z);
    W.WriteFromStart(z, hs);
    assert W.Serialize(w, p, z) == W.WriteReports(w, hs + z[8..] + [], 8, reports);
    W.WriteReportsIn(w, hs, z[8..], [], reports);
    assert hs + W.ReportsImage(w, reports) + [] == hs + W.ReportsImage(w, reports);
  }

  /** A buffer whose header announces a receiver report and whose blocks
      parse from offset 8 decodes to that report; the SSRC is the word at
      the field's offset under the chosen reading. */
  lemma ParseReceiverReportAt(v: Reading, b: Bytes, padding: bool, n: nat, rs: seq<ReceptionReport>, last: nat)
    requires n < 32 && 8 <= |b|
    requires b[0] == W.FirstByte(padding, n) && b[1] == ReceiverReportType
    requires ParseReports(b, 8, n) == Ok(Parsed(rs, last))
    ensures ParseWith(v, b).Ok?
    ensures ParseWith(v, b).value.value == ReceiverReport(padding, U32At(b, Origin(v, 4)), rs)
  {
  }

  /** The two words the parser may take as a receiver report's SSRC. */
  lemma EncodedReceiverReportWords(header: Bytes, ssrc: uint32, rest: Bytes)
    requires |header| == 4
    ensures var b := header + BE32(ssrc) + rest;
            && 8 <= |b| && b[0] == header[0] && b[1] == header[1]
            && U32At(b, 4) == ssrc && U32At(b, 0) == U32At(header + BE32(ssrc), 0)
  {
    BE32ReadIn(header, ssrc, rest);
    U32AtPrefix(header + BE32(ssrc), rest, 0);
  }

  /** Where the parser finds each field of an encoded receiver report
      followed by any bytes. */
  lemma EncodedReceiverReportLayout(w: W.Writing, header: Bytes, ssrc: uint32, reports: seq<ReceptionReport>, tail: Bytes)
    requires |header| == 4
    ensures var b := header + BE32(ssrc) + W.ReportsImage(w, reports) + tail;
            && 8 <= |b| && b[0] == header[0] && b[1] == header[1]
            && U32At(b, 4) == ssrc && U32At(b, 0) == U32At(header + BE32(ssrc), 0)
            && ParseReports(b, 8, |reports|) == Ok(Parsed(ReportsAsRead(w, reports), 8 + 24 * |reports|))
  {
    var img := W.ReportsImage(w, reports);
    ParseReportsImage(w, header + BE32(ssrc), reports, tail);
    AssocTail(header, BE32(ssrc), img, tail);
    EncodedReceiverReportWords(header, ssrc, img + tail);
  }

  /** Parsing an encoded receiver report followed by any bytes, for either
      reading of the fields. */
  lemma ParseEncodedReceiverReport(v: Reading, w: W.Writing, padding: bool, ssrc: uint32,
                                   reports: seq<ReceptionReport>, tail: Bytes)
    requires |reports| < 32
    ensures var header := W.Header(padding, |reports|, ReceiverReportType, 1 + 6 * |reports|);
            var b := header + BE32(ssrc) + W.ReportsImage(w, reports) + tail;
            && ParseWith(v, b).Ok?
            && ParseWith(v, b).value.value
               == ReceiverReport(padding, if v == AsWritten then U32At(header + BE32(ssrc), 0) else ssrc,
                                 ReportsAsRead(w, reports))
  {
    var header := W.Header(padding, |reports|, ReceiverReportType, 1 + 6 * |reports|);
    var b := header + BE32(ssrc) + W.ReportsImage(w, reports) + tail;
    EncodedReceiverReportLayout(w, header, ssrc, reports, tail);
    ParseReceiverReportAt(v, b, padding, |reports|, ReportsAsRead(w, reports), 8 + 24 * |reports|);
  }

  lemma {:induction false} ReportsAsReadCorrected(reports: seq<ReceptionReport>)
    requires forall i :: 0 <= i < |reports| ==> reports[i].cumulativeLost < 0x100_0000
    ensures ReportsAsRead(W.Corrected, reports) == reports
  {
    if |reports| > 0 {
      ReportsAsReadCorrected(reports[1..]);
      assert reports == [reports[0]] + reports[1..];
    }
  }

  /** With the 24-bit loss written and every field read at its cursor, a
      receiver report whose losses fit 24 bits comes back unchanged, whatever
      bytes follow it. */
  lemma RoundTripReceiverReport(padding: bool, ssrc: uint32, reports: seq<ReceptionReport>, tail: Bytes)
    requires |reports| < 32
    requires forall i :: 0 <= i < |reports| ==> reports[i].cumulativeLost < 0x100_0000
    ensures var p := ReceiverReport(padding, ssrc, reports);
            && W.Encode(W.Corrected, p).Ok?
            && ParseRtcpPacketAtCursor(W.Encode(W.Corrected, p).value + tail) == Ok(p)
  {
    EncodeReceiverReport(W.Corrected, padding, ssrc, reports);
    ParseEncodedReceiverReport(AtCursor, W.Corrected, padding, ssrc, reports, tail);
    ReportsAsReadCorrected(reports);
  }

  /** As written, the report comes back with the header word as its SSRC and
      each cumulative loss shifted right by eight bits, whatever follows it. */
  lemma AsWrittenReceiverReport(padding: bool, ssrc: uint32, reports: seq<ReceptionReport>, tail: Bytes)
    requires |reports| < 32
    ensures var p := ReceiverReport(padding, ssrc, reports);
            var header := W.Header(padding, |reports|, ReceiverReportType, 1 + 6 * |reports|);
            && W.Encode(W.AsWritten, p).Ok?
            && ParseRtcpPacket(W.Encode(W.AsWritten, p).value + tail)
               == Ok(ReceiverReport(padding, U32At(header + BE32(ssrc), 0), ReportsAsRead(W.AsWritten, reports)))
  {
    EncodeReceiverReport(W.AsWritten, padding, ssrc, reports);
    ParseEncodedReceiverReport(AsWritten, W.AsWritten, padding, ssrc, reports, tail);
  }

  /** A receiver report with SSRC 0x11223344 and one block losing 5 packets
      reads back with SSRC 0x81C90007 (its own header) and a loss of 0. */
  lemma AsWrittenReceiverReportExample()
    ensures var r := ReceptionReport(1, 0, 5, 0, 0, 0, 0);
            var p := ReceiverReport(false, 0x11223344, [r]);
            && W.Encode(W.AsWritten, p).Ok?
            && ParseRtcpPacket(W.Encode(W.AsWritten, p).value)
               == Ok(ReceiverReport(false, 0x81C90007, [r.(cumulativeLost := 0)]))
  {
    var r := ReceptionReport(1, 0, 5, 0, 0, 0, 0);
    var p := ReceiverReport(false, 0x11223344, [r]);
    AsWrittenReceiverReport(false, 0x11223344, [r], []);
    assert W.Encode(W.AsWritten, p).value + [] == W.Encode(W.AsWritten, p).value;
    var header := W.Header(false, 1, ReceiverReportType, 7);
    assert header == [129, 201, 0, 7];
    assert U32At(header + BE32(0x11223344), 0) == 0x81C90007;
    assert ReportsAsRead(W.AsWritten, [r]) == [r.(cumulativeLost := 0)];
  }

  /** The source words of a goodbye packet, back to back. */
  function SourcesImage(sources: seq<uint32>): (img: Bytes)
    ensures |img| == 4 * |sources|
  {
    if |sources| == 0 then [] else BE32(sources[0]) + SourcesImage(sources[1..])
  }

  /** Source words after any prefix read back one by one at the cursor. */
  lemma {:induction false} ParseSourcesImage(pre: Bytes, sources: seq<uint32>, post: Bytes)
    ensures ParseSources(AtCursor, pre + SourcesImage(sources) + post, |pre|, |sources|)
            == Ok(Parsed(sources, |pre| + 4 * |sources|))
    decreases |sources|
  {
    if |sources| > 0 {
      var b := pre + SourcesImage(sources) + post;
      var rest := SourcesImage(sources[1..]);
      assert b == (pre + BE32(sources[0])) + rest + post;
      assert b == pre + BE32(sources[0]) + (rest + post);
      BE32ReadIn(pre, sources[0], rest + post);
      ParseSourcesImage(pre + BE32(sources[0]), sources[1..], post);
      assert sources == [sources[0]] + sources[1..];
    }
  }

  /** A reason a goodbye packet can carry: its count fits the 8-bit octet. */
  predicate ValidReason(reason: Option<Bytes>)
  {
    reason.None? || |reason.value| < 0x100
  }

  /** The reason field of section 6.6 of RFC 3550: the count octet, the
      text, then null octets up to the next 32-bit boundary. */
  function ReasonField(text: Bytes): (f: Bytes)
    requires |text| < 0x100
    ensures |f| == ReasonFieldLength(|text|)
    ensures f[0] == |text| && f[1..1 + |text|] == text
  {
    [|text|] + text + Zeros(ReasonFieldLength(|text|) - 1 - |text|)
  }

  /** The bytes after the sources: the reason field, or nothing. */
  function ReasonImage(reason: Option<Bytes>): (img: Bytes)
    requires ValidReason(reason)
    ensures |img| % 4 == 0 && |img| < 0x104
  {
    if reason.None? then [] else ReasonField(reason.value)
  }

  /** A goodbye packet laid out as section 6.6 of RFC 3550 lays it out: the
      common header with the source count and the length in words minus
      one, the source words, then the reason field if there is a reason. */
  function GoodbyeImage(padding: bool, sources: seq<uint32>, reason: Option<Bytes>): (img: Bytes)
    requires |sources| < 32 && ValidReason(reason)
    ensures |img| == CommonHeaderLength + 4 * |sources| + |ReasonImage(reason)|
    ensures |img| % 4 == 0
  {
    W.Header(padding, |sources|, GoodbyeType, |sources| + |ReasonImage(reason)| / 4)
    + SourcesImage(sources) + ReasonImage(reason)
  }

  /** Where the parser finds the fields of a goodbye image: the first byte,
      the packet type, and a length field covering exactly the image. */
  lemma GoodbyeImageHeader(padding: bool, sources: seq<uint32>, reason: Option<Bytes>, tail: Bytes)
    requires |sources| < 32 && ValidReason(reason)
    ensures var b := GoodbyeImage(padding, sources, reason) + tail;
            && b[0] == W.FirstByte(padding, |sources|) && b[1] == GoodbyeType
            && (U16At(b, 2) + 1) * 4 == |GoodbyeImage(padding, sources, reason)|
  {
    var words := |sources| + |ReasonImage(reason)| / 4;
    var b := GoodbyeImage(padding, sources, reason) + tail;
    assert b == [W.FirstByte(padding, |sources|), GoodbyeType] + BE16(words) + (SourcesImage(sources) + ReasonImage(reason) + tail);
    BE16ReadIn([W.FirstByte(padding, |sources|), GoodbyeType], words, SourcesImage(sources) + ReasonImage(reason) + tail);
  }

  /** Read at the cursor, a goodbye image comes back with its sources in
      order and its reason, whatever bytes follow it, and the cursor stops
      at the end of the image. With a reason, the packet's own length
      getter then announces exactly the image's size. */
  lemma RoundTripGoodbye(padding: bool, sources: seq<uint32>, reason: Option<Bytes>, tail: Bytes)
    requires |sources| < 32 && ValidReason(reason)
    ensures var img := GoodbyeImage(padding, sources, reason);
            && ParseWith(AtCursor, img + tail) == Ok(Parsed(Goodbye(padding, sources, reason), |img|))
            && ParseRtcpPacketAtCursor(img + tail) == Ok(Goodbye(padding, sources, reason))
    ensures reason.Some? ==> AnnouncedSize(Goodbye(padding, sources, reason)) == Ok(|GoodbyeImage(padding, sources, reason)|)
  {
    GoodbyeParsesAtCursor(padding, sources, reason, tail);
    if reason.Some? {
      GoodbyeAnnouncesImage(padding, sources, reason.value);
    }
  }

  /** A goodbye image is parsed at the cursor into its packet, the cursor
      stopping at the image's end. */
  lemma GoodbyeParsesAtCursor(padding: bool, sources: seq<uint32>, reason: Option<Bytes>, tail: Bytes)
    requires |sources| < 32 && ValidReason(reason)
    ensures var img := GoodbyeImage(padding, sources, reason);
            ParseWith(AtCursor, img + tail) == Ok(Parsed(Goodbye(padding, sources, reason), |img|))
  {
    var img := GoodbyeImage(padding, sources, reason);
    GoodbyeImageHeader(padding, sources, reason, tail);
    HeaderDispatch(AtCursor, img + tail, padding, |sources|, GoodbyeType, |img|);
    GoodbyeBodyOfImage(padding, sources, reason, tail);
  }

  /** A goodbye with a reason announces exactly the size of its image. */
  lemma GoodbyeAnnouncesImage(padding: bool, sources: seq<uint32>, text: Bytes)
    requires |sources| < 32 && |text| < 0x100
    ensures AnnouncedSize(Goodbye(padding, sources, Some(text))) == Ok(|GoodbyeImage(padding, sources, Some(text))|)
  {
    GoodbyeLengthIsRfc(Goodbye(padding, sources, Some(text)));
  }

  /** The goodbye body of an image: its sources, then its reason, ending
      where the image ends. */
  lemma GoodbyeBodyOfImage(padding: bool, sources: seq<uint32>, reason: Option<Bytes>, tail: Bytes)
    requires |sources| < 32 && ValidReason(reason)
    ensures var img := GoodbyeImage(padding, sources, reason);
            ParseBody(AtCursor, img + tail, padding, |sources|, GoodbyeType, |img|)
            == Ok(Parsed(Goodbye(padding, sources, reason), |img|))
  {
    var header := W.Header(padding, |sources|, GoodbyeType, |sources| + |ReasonImage(reason)| / 4);
    assert GoodbyeImage(padding, sources, reason) + tail == header + SourcesImage(sources) + (ReasonImage(reason) + tail);
    GoodbyeBodyAfterHeader(header, padding, sources, reason, tail, |GoodbyeImage(padding, sources, reason)|);
  }

  /** After any 4-byte header, source words then a reason image are read
      back as the goodbye's body, up to the reason image's end. */
  lemma GoodbyeBodyAfterHeader(header: Bytes, padding: bool, sources: seq<uint32>, reason: Option<Bytes>, tail: Bytes, end: nat)
    requires |header| == 4 && ValidReason(reason) && end == 4 + 4 * |sources| + |ReasonImage(reason)|
    ensures ParseBody(AtCursor, header + SourcesImage(sources) + (ReasonImage(reason) + tail), padding, |sources|, GoodbyeType, end)
            == Ok(Parsed(Goodbye(padding, sources, reason), end))
  {
    var next := 4 + 4 * |sources|;
    GoodbyeBodyReachesReason(header, sources, ReasonImage(reason) + tail, padding, next, end);
    GoodbyeReasonAfter(header + SourcesImage(sources), next, end, padding, sources, reason, tail);
  }

  /** After any 4-byte header and source words, the goodbye body reaches its
      reason with the sources read. */
  lemma GoodbyeBodyReachesReason(header: Bytes, sources: seq<uint32>, rest: Bytes, padding: bool, next: nat, packetLenBytes: nat)
    requires |header| == 4 && next == 4 + 4 * |sources|
    ensures var b := header + SourcesImage(sources) + rest;
            ParseBody(AtCursor, b, padding, |sources|, GoodbyeType, packetLenBytes)
            == GoodbyeReason(AtCursor, b, padding, Parsed(sources, next), packetLenBytes)
  {
    GoodbyeSourcesImage(header, sources, rest, padding, packetLenBytes);
    GoodbyeDispatch(AtCursor, header + SourcesImage(sources) + rest, padding, |sources|, packetLenBytes);
  }

  /** A reason image after a prefix of `next` bytes, read at the cursor up
      to its end. */
  lemma GoodbyeReasonAfter(pre: Bytes, next: nat, end: nat, padding: bool, sources: seq<uint32>, reason: Option<Bytes>, tail: Bytes)
    requires ValidReason(reason) && |pre| == next && end == next + |ReasonImage(reason)|
    ensures GoodbyeReason(AtCursor, pre + (ReasonImage(reason) + tail), padding, Parsed(sources, next), end)
            == Ok(Parsed(Goodbye(padding, sources, reason), end))
  {
    var b := pre + (ReasonImage(reason) + tail);
    assert b[next..end] == ReasonImage(reason);
    GoodbyeReasonImage(b, padding, sources, next, reason);
  }

  /** The goodbye body over source words laid out after the header: the
      reason is read from the end of the last source word. */
  lemma GoodbyeSourcesImage(header: Bytes, sources: seq<uint32>, rest: Bytes, padding: bool, packetLenBytes: nat)
    requires |header| == 4
    ensures var b := header + SourcesImage(sources) + rest;
            ParseGoodbye(AtCursor, b, padding, |sources|, packetLenBytes)
            == GoodbyeReason(AtCursor, b, padding, Parsed(sources, 4 + 4 * |sources|), packetLenBytes)
  {
    ParseSourcesImage(header, sources, rest);
    GoodbyeAfterSources(header + SourcesImage(sources) + rest, padding, sources, 4 + 4 * |sources|, packetLenBytes);
  }

  /** The goodbye body once the sources have been read up to `next`. */
  lemma GoodbyeAfterSources(b: Bytes, padding: bool, sources: seq<uint32>, next: nat, packetLenBytes: nat)
    requires ParseSources(AtCursor, b, 4, |sources|) == Ok(Parsed(sources, next))
    ensures ParseGoodbye(AtCursor, b, padding, |sources|, packetLenBytes)
            == GoodbyeReason(AtCursor, b, padding, Parsed(sources, next), packetLenBytes)
  {
  }

  /** A reason image at `next`, read at the cursor up to its end: the
      reason comes back, none for an empty image. */
  lemma GoodbyeReasonImage(b: Bytes, padding: bool, sources: seq<uint32>, next: nat, reason: Option<Bytes>)
    requires ValidReason(reason)
    requires next + |ReasonImage(reason)| <= |b| && b[next..next + |ReasonImage(reason)|] == ReasonImage(reason)
    ensures GoodbyeReason(AtCursor, b, padding, Parsed(sources, next), next + |ReasonImage(reason)|)
            == Ok(Parsed(Goodbye(padding, sources, reason), next + |ReasonImage(reason)|))
  {
    if reason.Some? {
      var text := reason.value;
      var field := b[next..next + |ReasonImage(reason)|];
      assert field == ReasonField(text) && |field| == ReasonFieldLength(|text|);
      assert b[next] == field[0];
      assert next + 1 + |text| <= |b|;
      forall k | 0 <= k < |text|
        ensures b[next + 1 + k] == text[k]
      {
        assert text[k] == field[1..1 + |text|][k] == field[1 + k];
      }
      assert b[next + 1..next + 1 + |text|] == text;
      GoodbyeReasonAt(b, padding, sources, next, text);
    }
  }

  /** A reason field at `next`, read at the cursor through its count octet. */
  lemma GoodbyeReasonAt(b: Bytes, padding: bool, sources: seq<uint32>, next: nat, text: Bytes)
    requires next + ReasonFieldLength(|text|) <= |b|
    requires b[next] == |text| && b[next + 1..next + 1 + |text|] == text
    ensures GoodbyeReason(AtCursor, b, padding, Parsed(sources, next), next + ReasonFieldLength(|text|))
            == Ok(Parsed(Goodbye(padding, sources, Some(text)), next + ReasonFieldLength(|text|)))
  {
  }

  /** A packet whose header holds `padding`, `count`, the type and a
      length field announcing `len` bytes is parsed by that type's body. */
  lemma HeaderDispatch(v: Reading, b: Bytes, padding: bool, count: nat, packetType: uint8, len: nat)
    requires 4 <= |b| && count < 32
    requires b[0] == W.FirstByte(padding, count) && b[1] == packetType && (U16At(b, 2) + 1) * 4 == len
    ensures ParseWith(v, b) == ParseBody(v, b, padding, count, packetType, len)
  {
  }

  lemma GoodbyeDispatch(v: Reading, b: Bytes, padding: bool, count: nat, packetLenBytes: nat)
    requires 4 <= |b|
    ensures ParseBody(v, b, padding, count, GoodbyeType, packetLenBytes) == ParseGoodbye(v, b, padding, count, packetLenBytes)
  {
  }

  /** As written, every source of a goodbye reads as the packet's own first
      word, and the reason as the packet's first bytes, as many as the
      whole reason field: count octet, text and null padding. */
  lemma AsWrittenGoodbye(padding: bool, sources: seq<uint32>, reason: Option<Bytes>, tail: Bytes)
    requires |sources| < 32 && ValidReason(reason)
    ensures var b := GoodbyeImage(padding, sources, reason) + tail;
            ParseRtcpPacket(b)
            == Ok(Goodbye(padding, seq(|sources|, _ => U32At(b, 0)),
                          if reason.None? then None else Some(b[..ReasonFieldLength(|reason.value|)])))
  {
    var b := GoodbyeImage(padding, sources, reason) + tail;
    GoodbyeImageHeader(padding, sources, reason, tail);
    var srcs := ParseSources(AsWritten, b, 4, |sources|).value;
    assert srcs.value == seq(|sources|, _ => U32At(b, 0));
  }

  /** As written, the reason the parser keeps for a goodbye with a reason
      is the whole reason field, so the packet's length getter, which adds
      its own count octet and padding, announces one word more than the
      image: the receive loop resumes four bytes past the packet. */
  lemma AsWrittenGoodbyeOvercounts(padding: bool, sources: seq<uint32>, text: Bytes, tail: Bytes)
    requires |sources| < 32 && |text| < 0x100
    ensures var img := GoodbyeImage(padding, sources, Some(text));
            && ParseRtcpPacket(img + tail).Ok?
            && ParseRtcpPacket(img + tail).value.reason.Some?
            && |ParseRtcpPacket(img + tail).value.reason.value| == ReasonFieldLength(|text|)
            && AnnouncedSize(ParseRtcpPacket(img + tail).value) == Ok(|img| + 4)
  {
    var img := GoodbyeImage(padding, sources, Some(text));
    AsWrittenGoodbye(padding, sources, Some(text), tail);
    var g := ParseRtcpPacket(img + tail).value;
    GoodbyeLengthIsRfc(g);
    assert ReasonFieldLength(ReasonFieldLength(|text|)) == ReasonFieldLength(|text|) + 4;
  }

  /** A goodbye from source 0x11223344 leaving with "bye": 12 bytes. As
      written it reads back with its header word as the source and its
      header as the reason, and announces 16 bytes; read at the cursor it
      comes back unchanged and announces its 12 bytes. */
  lemma ByeReasonExample()
    ensures GoodbyeImage(false, [0x11223344], Some([98, 121, 101]))
            == [0x81, GoodbyeType, 0, 2, 0x11, 0x22, 0x33, 0x44, 3, 98, 121, 101]
    ensures ParseRtcpPacket(GoodbyeImage(false, [0x11223344], Some([98, 121, 101])))
            == Ok(Goodbye(false, [0x81CB0002], Some([0x81, GoodbyeType, 0, 2])))
    ensures AnnouncedSize(Goodbye(false, [0x81CB0002], Some([0x81, GoodbyeType, 0, 2]))) == Ok(16)
    ensures ParseRtcpPacketAtCursor(GoodbyeImage(false, [0x11223344], Some([98, 121, 101])))
            == Ok(Goodbye(false, [0x11223344], Some([98, 121, 101])))
    ensures AnnouncedSize(Goodbye(false, [0x11223344], Some([98, 121, 101]))) == Ok(12)
  {
    ByeReasonImage();
    ByeReasonAsWritten();
    ByeReasonAnnounced();
    ByeReasonAtCursor();
  }

  lemma ByeReasonAtCursor()
    ensures ParseRtcpPacketAtCursor(GoodbyeImage(false, [0x11223344], Some([98, 121, 101])))
            == Ok(Goodbye(false, [0x11223344], Some([98, 121, 101])))
  {
    RoundTripGoodbye(false, [0x11223344], Some([98, 121, 101]), []);
    assert GoodbyeImage(false, [0x11223344], Some([98, 121, 101])) + [] == GoodbyeImage(false, [0x11223344], Some([98, 121, 101]));
  }

  lemma ByeReasonAnnounced()
    ensures AnnouncedSize(Goodbye(false, [0x81CB0002], Some([0x81, GoodbyeType, 0, 2]))) == Ok(16)
    ensures AnnouncedSize(Goodbye(false, [0x11223344], Some([98, 121, 101]))) == Ok(12)
  {
    GoodbyeLengthIsRfc(Goodbye(false, [0x81CB0002], Some([0x81, GoodbyeType, 0, 2])));
    GoodbyeLengthIsRfc(Goodbye(false, [0x11223344], Some([98, 121, 101])));
  }

  lemma ByeReasonImage()
    ensures GoodbyeImage(false, [0x11223344], Some([98, 121, 101]))
            == [0x81, GoodbyeType, 0, 2, 0x11, 0x22, 0x33, 0x44, 3, 98, 121, 101]
  {
    assert ReasonField([98, 121, 101]) == [3, 98, 121, 101];
    assert SourcesImage([0x11223344]) == [0x11, 0x22, 0x33, 0x44];
    assert W.Header(false, 1, GoodbyeType, 2) == [0x81, GoodbyeType, 0, 2];
  }

  lemma ByeReasonAsWritten()
    requires GoodbyeImage(false, [0x11223344], Some([98, 121, 101]))
             == [0x81, GoodbyeType, 0, 2, 0x11, 0x22, 0x33, 0x44, 3, 98, 121, 101]
    ensures ParseRtcpPacket(GoodbyeImage(false, [0x11223344], Some([98, 121, 101])))
            == Ok(Goodbye(false, [0x81CB0002], Some([0x81, GoodbyeType, 0, 2])))
  {
    var b := GoodbyeImage(false, [0x11223344], Some([98, 121, 101]));
    AsWrittenGoodbye(false, [0x11223344], Some([98, 121, 101]), []);
    assert b + [] == b;
    assert U32At(b, 0) == 0x81CB0002;
    assert seq(1, _ => U32At(b, 0)) == [0x81CB0002];
    assert b[..4] == [0x81, GoodbyeType, 0, 2];
  }

  /** A goodbye from sources 0x11223344 and 0x55667788 without a reason
      reads back as written as two copies of its header word 0x82CB0002. */
  lemma AsWrittenGoodbyeExample()
    ensures ParseRtcpPacket(GoodbyeImage(false, [0x11223344, 0x55667788], None))
            == Ok(Goodbye(false, [0x82CB0002, 0x82CB0002], None))
  {
    var b := GoodbyeImage(false, [0x11223344, 0x55667788], None);
    AsWrittenGoodbye(false, [0x11223344, 0x55667788], None, []);
    assert b + [] == b;
    assert b[..4] == W.Header(false, 2, GoodbyeType, 2);
    assert W.Header(false, 2, GoodbyeType, 2) == [130, 203, 0, 2];
    assert U32At(b, 0) == 0x82CB0002;
    assert seq(2, _ => U32At(b, 0)) == [0x82CB0002, 0x82CB0002];
  }
}
