/** RTCP packets of sections 6.4-6.7 of RFC 3550 as the relay represents them,
    and the `LengthIn32BitWordsMinusOne` value each packet class computes for
    its header. Text fields (SDES item text, BYE reason, APP name) are held
    as the byte strings that carry them. */
module Rtcp {
  import opened Results
  import opened Bytes

  const SenderReportType: uint8 := 200
  const ReceiverReportType: uint8 := 201
  const SourceDescriptionType: uint8 := 202
  const GoodbyeType: uint8 := 203
  const ApplicationDefinedType: uint8 := 204

  /** Source description item types (`SourceDescriptionType`). */
  const SdesEnd: uint8 := 0
  const SdesCanonicalName: uint8 := 1
  const SdesPrivateExtension: uint8 := 8

  const RtcpVersion: nat := 2

  /** The common header every packet starts with. */
  const CommonHeaderLength: nat := 4

  /** Fixed part sizes used by the length getters. */
  const ReportHeaderLength: nat := 8
  const SenderInfoLength: nat := 20
  const ReportBlockLength: nat := 24
  const SdesHeaderLength: nat := 4
  const ChunkSsrcLength: nat := 4
  const ItemHeaderLength: nat := 2
  const EndLength: nat := 1
  /** The common header, the reason's count octet and the three octets
      that round the reason up to a word. */
  const GoodbyeHeaderLength: nat := 8
  const AppHeaderLength: nat := 8

  datatype ReceptionReport = ReceptionReport(
    ssrc: uint32,
    fractionLost: uint8,
    cumulativeLost: uint32,
    extendedHighestSequence: uint32,
    jitter: int32,
    lastSenderReport: uint32,
    delaySinceLastSenderReport: uint32)

  datatype SdesItem = SdesItem(itemType: uint8, text: Bytes)

  datatype SdesChunk = SdesChunk(ssrc: uint32, items: seq<SdesItem>)

  datatype RtcpPacket =
    | SenderReport(padding: bool, ssrc: uint32, ntpTimestamp: uint64, rtpTimestamp: uint32,
                   packetCount: uint32, octetCount: uint32, reports: seq<ReceptionReport>)
    | ReceiverReport(padding: bool, ssrc: uint32, reports: seq<ReceptionReport>)
    | SourceDescription(padding: bool, chunks: seq<SdesChunk>)
    | Goodbye(padding: bool, sources: seq<uint32>, reason: Option<Bytes>)
    | ApplicationDefined(padding: bool, ssrc: uint32, name: Bytes, data: Bytes)
  {
    function PacketType(): uint8 {
      match this
      case SenderReport(_, _, _, _, _, _, _) => SenderReportType
      case ReceiverReport(_, _, _) => ReceiverReportType
      case SourceDescription(_, _) => SourceDescriptionType
      case Goodbye(_, _, _) => GoodbyeType
      case ApplicationDefined(_, _, _, _) => ApplicationDefinedType
    }
  }

  /** Bytes the items occupy: type, length and text of each. */
  function ItemsLength(items: seq<SdesItem>): nat
  {
    if |items| == 0 then 0
    else ItemHeaderLength + |items[0].text| + ItemsLength(items[1..])
  }

  /** Bytes the chunks occupy, each counted with its SSRC and one end byte. */
  function ChunksLength(chunks: seq<SdesChunk>): nat
  {
    if |chunks| == 0 then 0
    else ChunkSsrcLength + ItemsLength(chunks[0].items) + EndLength + ChunksLength(chunks[1..])
  }

  /** Unpadded size of an SDES packet as the getter sums it. */
  function SdesRawLength(chunks: seq<SdesChunk>): nat
  {
    SdesHeaderLength + ChunksLength(chunks)
  }

  /** The `(ushort)` cast of a non-negative `int`. */
  function ToUShort(x: nat): uint16
  {
    x % TWO16
  }

  /** `LengthIn32BitWordsMinusOne` of every packet class. The goodbye packet
      dereferences its reason, so a packet without one has no length. */
  function LengthWords(p: RtcpPacket): (r: Result<uint16>)
    ensures r.Fail? <==> p.Goodbye? && p.reason.None?
    ensures r.Fail? ==> r.error == NullReference
  {
    match p
    case SenderReport(_, _, _, _, _, _, reports) =>
      Ok(ToUShort((ReportHeaderLength + SenderInfoLength + ReportBlockLength * |reports|) / 4 - 1))
    case ReceiverReport(_, _, reports) =>
      Ok(ToUShort((ReportHeaderLength + ReportBlockLength * |reports|) / 4 - 1))
    case SourceDescription(_, chunks) =>
      var length := SdesRawLength(chunks);
      if length % 4 == 0 then Ok(ToUShort(length / 4 - 1)) else Ok(ToUShort(length / 4))
    case Goodbye(_, sources, reason) =>
      if reason.None? then Fail(NullReference)
      else Ok(ToUShort((GoodbyeHeaderLength + 4 * |sources| + |reason.value|) / 4 - 1))
    case ApplicationDefined(_, _, name, data) =>
      Ok(ToUShort((AppHeaderLength + |name| + |data|) / 4 - 1))
  }

  /** Bytes a goodbye reason of `n` octets occupies under section 6.6 of
      RFC 3550: the 8-bit count octet, the text, then null octets up to
      the next 32-bit boundary. */
  function ReasonFieldLength(n: nat): (r: nat)
    ensures r % 4 == 0 && n + 1 <= r < n + 5
  {
    (n + 4) / 4 * 4
  }

  /** The size in bytes a packet announces: `(length + 1) * 4`. */
  function AnnouncedSize(p: RtcpPacket): Result<nat>
  {
    var words :- LengthWords(p);
    Ok(words * 4 + 4)
  }

  /** A report packet announces exactly its header, sender information and
      report blocks, as long as the word count fits the 16-bit field. */
  lemma ReportSizeExact(p: RtcpPacket)
    requires p.SenderReport? || p.ReceiverReport?
    requires |p.reports| < 10000
    ensures AnnouncedSize(p).Ok?
    ensures p.SenderReport? ==>
              AnnouncedSize(p).value == ReportHeaderLength + SenderInfoLength + ReportBlockLength * |p.reports|
    ensures p.ReceiverReport? ==>
              AnnouncedSize(p).value == ReportHeaderLength + ReportBlockLength * |p.reports|
  {
  }

  /** The goodbye getter announces the size section 6.6 of RFC 3550 gives
      a packet with a reason: the common header, one word per source, and
      the reason field with its count octet and null padding. */
  lemma GoodbyeLengthIsRfc(p: RtcpPacket)
    requires p.Goodbye? && p.reason.Some?
    requires 4 * |p.sources| + |p.reason.value| < 4 * TWO16 - 4
    ensures AnnouncedSize(p) == Ok(CommonHeaderLength + 4 * |p.sources| + ReasonFieldLength(|p.reason.value|))
  {
    var n := |p.reason.value|;
    assert (GoodbyeHeaderLength + 4 * |p.sources| + n) / 4 - 1 == |p.sources| + (n + 4) / 4;
  }

  /** An SDES packet announces its summed size rounded up to whole words,
      so the slot always has room for at least one byte after the items. */
  lemma SdesSizeRoundsUp(p: RtcpPacket)
    requires p.SourceDescription?
    requires SdesRawLength(p.chunks) < 4 * TWO16
    ensures AnnouncedSize(p).Ok?
    ensures var size := AnnouncedSize(p).value;
            && size % 4 == 0
            && SdesRawLength(p.chunks) <= size < SdesRawLength(p.chunks) + 4
  {
  }

  /** Beyond 65535 words the 16-bit length wraps: a receiver report with
      10923 blocks (262160 bytes) announces only 16 bytes. */
  lemma ReportLengthWraps()
    ensures var p := ReceiverReport(false, 0, seq(10923, _ => ReceptionReport(0, 0, 0, 0, 0, 0, 0)));
            AnnouncedSize(p) == Ok(16)
  {
  }
}
