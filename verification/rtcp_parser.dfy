/** `RtcpPacketParser.ParseRtcpPacket`: decodes one RTCP packet from the
    start of a buffer. Several fields are sliced at offset 0 of the buffer
    instead of at the parser's cursor: the receiver report SSRC, the SDES
    chunk SSRC and item text, and the goodbye SSRCs and reason. The goodbye
    reason also keeps its count octet and null padding. `AsWritten` reads
    them where and as the code does; `AtCursor` is the evidently intended
    reading, used to state the round trips. */
module RtcpParser {
  import opened Results
  import opened Bytes
  import opened Rtcp

  datatype Reading = AsWritten | AtCursor

  /** Offset of a sliced field: the buffer start as written, else the cursor. */
  function Origin(v: Reading, idx: nat): nat
  {
    if v == AsWritten then 0 else idx
  }

  /** A decoded value and the parser's cursor after it (the source's `ref idx`). */
  datatype Parsed<T> = Parsed(value: T, next: nat)

  /** `Encoding.ASCII.GetString`: bytes outside ASCII decode to '?'. */
  function AsciiDecode(s: Bytes): (r: Bytes)
    ensures |r| == |s|
    ensures forall i :: 0 <= i < |s| ==> r[i] == (if s[i] < 128 then s[i] else 63)
  {
    seq(|s|, i requires 0 <= i < |s| => if s[i] < 128 then s[i] else 63)
  }

  /** One 24-byte reception report block at `idx`; the cumulative loss is 24 bits. */
  function ReportAt(b: Bytes, idx: nat): ReceptionReport
    requires idx + ReportBlockLength <= |b|
  {
    ReceptionReport(
      ssrc := U32At(b, idx),
      fractionLost := b[idx + 4],
      cumulativeLost := (b[idx + 5] as int) * TWO16 + (b[idx + 6] as int) * 0x100 + b[idx + 7],
      extendedHighestSequence := U32At(b, idx + 8),
      jitter := ToInt32(U32At(b, idx + 12)),
      lastSenderReport := U32At(b, idx + 16),
      delaySinceLastSenderReport := U32At(b, idx + 20))
  }

  function ParseReports(b: Bytes, idx: nat, n: nat): (r: Result<Parsed<seq<ReceptionReport>>>)
    ensures r.Ok? <==> n == 0 || idx + 24 * n <= |b|
    ensures r.Fail? ==> r.error == OutOfRange
    ensures r.Ok? ==>
              && r.value.next == idx + 24 * n
              && |r.value.value| == n
    decreases n
  {
    if n == 0 then Ok(Parsed([], idx))
    else if idx + ReportBlockLength > |b| then Fail(OutOfRange)
    else
      var rest :- ParseReports(b, idx + ReportBlockLength, n - 1);
      Ok(Parsed([ReportAt(b, idx)] + rest.value, rest.next))
  }

  /** The items of one SDES chunk, up to and including the end byte (type 0). */
  function ParseItems(v: Reading, b: Bytes, idx: nat): (r: Result<Parsed<seq<SdesItem>>>)
    ensures r.Ok? ==> idx < r.value.next <= |b|
    ensures r.Fail? ==> r.error == OutOfRange
    decreases |b| - idx
  {
    if idx >= |b| then Fail(OutOfRange)
    else if b[idx] == SdesEnd then Ok(Parsed([], idx + 1))
    else if idx + 1 >= |b| then Fail(OutOfRange)
    else
      var textLength := b[idx + 1];
      var start := Origin(v, idx + 2);
      if start + textLength > |b| then Fail(OutOfRange)
      else
        var next := idx + 2 + textLength;
        if next >= |b| then Fail(OutOfRange)
        else
          var rest :- ParseItems(v, b, next);
          Ok(Parsed([SdesItem(b[idx], b[start..start + textLength])] + rest.value, rest.next))
  }

  function ParseChunks(v: Reading, b: Bytes, idx: nat, n: nat): (r: Result<Parsed<seq<SdesChunk>>>)
    ensures r.Ok? ==> |r.value.value| == n && idx <= r.value.next
    ensures r.Fail? ==> r.error == OutOfRange
    decreases n
  {
    if n == 0 then Ok(Parsed([], idx))
    else if Origin(v, idx) + 4 > |b| then Fail(OutOfRange)
    else
      var ssrc := U32At(b, Origin(v, idx));
      var items :- ParseItems(v, b, idx + ChunkSsrcLength);
      var rest :- ParseChunks(v, b, items.next, n - 1);
      Ok(Parsed([SdesChunk(ssrc, items.value)] + rest.value, rest.next))
  }

  /** The goodbye packet's `count` source words from `idx`: as written
      every one is read at the buffer start, at the cursor the i-th is the
      word `4 * i` bytes on. */
  function ParseSources(v: Reading, b: Bytes, idx: nat, n: nat): (r: Result<Parsed<seq<uint32>>>)
    ensures r.Ok? ==> |r.value.value| == n && r.value.next == idx + 4 * n
    ensures r.Fail? ==> r.error == OutOfRange
    ensures v == AsWritten && 4 <= |b| ==>
              r.Ok? && forall i :: 0 <= i < n ==> r.value.value[i] == U32At(b, 0)
    ensures v == AtCursor ==> (r.Ok? <==> n == 0 || idx + 4 * n <= |b|)
    ensures v == AtCursor && r.Ok? ==> forall i :: 0 <= i < n ==> r.value.value[i] == U32At(b, idx + 4 * i)
    decreases n
  {
    if n == 0 then Ok(Parsed([], idx))
    else if Origin(v, idx) + 4 > |b| then Fail(OutOfRange)
    else
      var rest :- ParseSources(v, b, idx + 4, n - 1);
      Ok(Parsed([U32At(b, Origin(v, idx))] + rest.value, rest.next))
  }

  /** The goodbye body: the sources, then the reason. */
  function ParseGoodbye(v: Reading, b: Bytes, padding: bool, count: nat, packetLenBytes: nat)
    : (r: Result<Parsed<RtcpPacket>>)
    ensures r.Ok? ==> r.value.value.Goodbye? && r.value.value.padding == padding
    ensures r.Fail? ==> r.error == OutOfRange
  {
    var sources :- ParseSources(v, b, 4, count);
    GoodbyeReason(v, b, padding, sources, packetLenBytes)
  }

  /** After the sources, the rest of the announced size holds the reason;
      none when nothing is left. As written the reason is every remaining
      byte, count octet and null padding included; at the cursor it is the
      count octet's worth of text after it, as section 6.6 of RFC 3550
      lays it out. Either way the cursor moves to the announced end. */
  function GoodbyeReason(v: Reading, b: Bytes, padding: bool, sources: Parsed<seq<uint32>>, packetLenBytes: nat)
    : (r: Result<Parsed<RtcpPacket>>)
    ensures r.Ok? ==> r.value.value.Goodbye? && r.value.value.padding == padding
                      && r.value.value.sources == sources.value
    ensures r.Ok? ==> r.value.next == (if packetLenBytes > sources.next then packetLenBytes else sources.next)
    ensures r.Ok? ==> (r.value.value.reason.Some? <==> packetLenBytes > sources.next)
    ensures v == AsWritten && r.Ok? && r.value.value.reason.Some? ==>
              packetLenBytes - sources.next <= |b| && r.value.value.reason.value == b[..packetLenBytes - sources.next]
    ensures v == AtCursor && r.Ok? && r.value.value.reason.Some? ==>
              && sources.next < |b|
              && |r.value.value.reason.value| == b[sources.next] < packetLenBytes - sources.next
    ensures r.Fail? ==> r.error == OutOfRange
  {
    var remaining := packetLenBytes - sources.next;
    if remaining <= 0 then Ok(Parsed(Goodbye(padding, sources.value, None), sources.next))
    else
      var start := Origin(v, sources.next);
      if start + remaining > |b| then Fail(OutOfRange)
      else if v == AsWritten then
        Ok(Parsed(Goodbye(padding, sources.value, Some(b[start..start + remaining])), sources.next + remaining))
      else if b[start] >= remaining then Fail(OutOfRange)
      else
        Ok(Parsed(Goodbye(padding, sources.value, Some(b[start + 1..start + 1 + b[start]])), sources.next + remaining))
  }

  /** The body after the 4-byte common header, by packet type. */
  function ParseBody(v: Reading, b: Bytes, padding: bool, count: nat, packetType: uint8, packetLenBytes: nat)
    : (r: Result<Parsed<RtcpPacket>>)
    requires 4 <= |b|
    ensures r.Ok? ==> r.value.value.PacketType() == packetType && r.value.value.padding == padding
    ensures r.Fail? && packetType !in {200, 201, 202, 203, 204} ==> r.error == NotSupported
    ensures r.Fail? && packetType in {200, 201, 202, 203, 204} ==> r.error == OutOfRange
  {
    if packetType == SenderReportType then
      if |b| < 28 then Fail(OutOfRange)
      else
        var reports :- ParseReports(b, 28, count);
        Ok(Parsed(SenderReport(padding, U32At(b, 4), U64At(b, 8), U32At(b, 16), U32At(b, 20), U32At(b, 24),
                               reports.value), reports.next))
    else if packetType == ReceiverReportType then
      if Origin(v, 4) + 4 > |b| then Fail(OutOfRange)
      else
        var reports :- ParseReports(b, 8, count);
        Ok(Parsed(ReceiverReport(padding, U32At(b, Origin(v, 4)), reports.value), reports.next))
    else if packetType == SourceDescriptionType then
      var chunks :- ParseChunks(v, b, 4, count);
      Ok(Parsed(SourceDescription(padding, chunks.value), chunks.next))
    else if packetType == GoodbyeType then ParseGoodbye(v, b, padding, count, packetLenBytes)
    else if packetType == ApplicationDefinedType then
      if |b| < 12 || packetLenBytes < 12 || packetLenBytes > |b| then Fail(OutOfRange)
      else Ok(Parsed(ApplicationDefined(padding, U32At(b, 4), AsciiDecode(b[8..12]), b[12..packetLenBytes]), 12))
    else Fail(NotSupported)
  }

  /** The common header, then the body. The version must be 2; the packet type
      is checked only after the 16-bit length has been read. */
  function ParseWith(v: Reading, b: Bytes): (r: Result<Parsed<RtcpPacket>>)
    ensures r.Ok? ==> |b| >= 4 && b[0] / 64 == RtcpVersion
    ensures r.Ok? ==> r.value.value.PacketType() == b[1]
    ensures r.Ok? ==> r.value.value.padding == ((b[0] / 32) % 2 == 1)
    ensures |b| >= 1 && b[0] / 64 != RtcpVersion ==> r == Fail(NotSupported)
    ensures |b| >= 4 && b[0] / 64 == RtcpVersion && b[1] !in {200, 201, 202, 203, 204} ==> r == Fail(NotSupported)
    ensures |b| < 1 || (b[0] / 64 == RtcpVersion && |b| < 4) ==> r == Fail(OutOfRange)
  {
    if |b| < 1 then Fail(OutOfRange)
    else if b[0] / 64 != RtcpVersion then Fail(NotSupported)
    else if |b| < 4 then Fail(OutOfRange)
    else
      ParseBody(v, b, (b[0] / 32) % 2 == 1, b[0] % 32, b[1], (U16At(b, 2) + 1) * 4)
  }

  /** The parser as written. */
  function ParseRtcpPacket(b: Bytes): (r: Result<RtcpPacket>)
    ensures r.Ok? ==> |b| >= 4 && r.value.PacketType() == b[1] && b[0] / 64 == RtcpVersion
    ensures r.Ok? && r.value.ReceiverReport? ==> |b| >= 4 && r.value.ssrc == U32At(b, 0)
  {
    var p :- ParseWith(AsWritten, b);
    Ok(p.value)
  }

  /** The parser with every field read at its cursor. */
  function ParseRtcpPacketAtCursor(b: Bytes): (r: Result<RtcpPacket>)
    ensures r.Ok? ==> |b| >= 4 && r.value.PacketType() == b[1] && b[0] / 64 == RtcpVersion
    ensures r.Ok? && r.value.ReceiverReport? ==> |b| >= 8 && r.value.ssrc == U32At(b, 4)
  {
    var p :- ParseWith(AtCursor, b);
    Ok(p.value)
  }

  lemma ReportBodyConsumesAnnouncedSize(v: Reading, b: Bytes, padding: bool, count: nat, packetType: uint8, packetLenBytes: nat)
    requires 4 <= |b| && count < 32
    requires packetType == SenderReportType || packetType == ReceiverReportType
    requires ParseBody(v, b, padding, count, packetType, packetLenBytes).Ok?
    ensures var r := ParseBody(v, b, padding, count, packetType, packetLenBytes).value;
            AnnouncedSize(r.value).Ok? && AnnouncedSize(r.value).value == r.next
  {
    var r := ParseBody(v, b, padding, count, packetType, packetLenBytes).value;
    ReportSizeExact(r.value);
    if packetType == SenderReportType {
      var reports := ParseReports(b, 28, count).value;
      assert r.value.reports == reports.value && r.next == reports.next;
      assert AnnouncedSize(r.value).value == 28 + 24 * count;
    } else {
      var reports := ParseReports(b, 8, count).value;
      assert r.value.reports == reports.value && r.next == reports.next;
      assert AnnouncedSize(r.value).value == 8 + 24 * count;
    }
  }

  /** For report packets the cursor stops exactly at the size the decoded
      packet announces, whatever the length field on the wire says. */
  lemma ReportConsumesAnnouncedSize(v: Reading, b: Bytes)
    requires ParseWith(v, b).Ok?
    requires ParseWith(v, b).value.value.SenderReport? || ParseWith(v, b).value.value.ReceiverReport?
    ensures var r := ParseWith(v, b).value;
            AnnouncedSize(r.value).Ok? && AnnouncedSize(r.value).value == r.next
  {
    ReportBodyConsumesAnnouncedSize(v, b, (b[0] / 32) % 2 == 1, b[0] % 32, b[1], (U16At(b, 2) + 1) * 4);
  }
}
