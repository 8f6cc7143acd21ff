/** `RtpHandler`: the receiver of RTP-range datagrams. It tells RTCP from RTP
    by the second byte, as section 4 of RFC 5761 allows when both share a
    port, and hands the datagram to the matching parser. The parsed packet
    is not used further (decryption is not implemented in the relay). */
module RtpHandler {
  import opened Results
  import opened Bytes
  import opened Rtcp
  import RtcpParser
  import RtpPacket
  import W = RtcpSerializer
  import RtcpClient

  /** Second-byte values that section 4 of RFC 5761 reserves for RTCP:
      the assigned packet types 200-204 and the ranges 194-199 and 209-223
      kept free for future RTCP types. */
  predicate RtcpRange(x: int)
  {
    194 <= x <= 204 || 209 <= x <= 223
  }

  /** `IsRtcpPacket`: reading byte 1 of a shorter datagram throws. */
  function IsRtcpPacket(b: Bytes): (r: Result<bool>)
    ensures r.Fail? <==> |b| < 2
    ensures r.Fail? ==> r.error == OutOfRange
    ensures r.Ok? ==> (r.value <==> RtcpRange(b[1]))
  {
    if |b| < 2 then Fail(OutOfRange)
    else
      var t := b[1];
      Ok(200 <= t <= 204 || 209 <= t <= 223 || 194 <= t <= 199)
  }

  /** The packet a datagram was parsed into. */
  datatype Dispatched = AsRtcp(rtcp: RtcpPacket) | AsRtp(rtp: RtpPacket.RtpPacket)

  /** `ProcessRequestAsync`: classify, then parse with the RTCP parser as
      written or with the RTP parser; a parser's exception escapes. */
  function ProcessRequest(b: Bytes): (r: Result<Dispatched>)
    ensures r.Ok? ==> |b| >= 2
    ensures r.Ok? && r.value.AsRtcp? ==> RtcpRange(b[1]) && r.value.rtcp.PacketType() == b[1]
    ensures r.Ok? && r.value.AsRtp? ==> !RtcpRange(b[1]) && r.value.rtp.rawBytes == b
  {
    var rtcp :- IsRtcpPacket(b);
    if rtcp then
      var p :- RtcpParser.ParseRtcpPacket(b);
      Ok(AsRtcp(p))
    else
      var p :- RtpPacket.Parse(b);
      Ok(AsRtp(p))
  }

  /** Every packet type the RTCP parser knows is classified as RTCP. */
  lemma RtcpTypesAreRtcp(b: Bytes)
    requires |b| >= 2 && b[1] in {SenderReportType, ReceiverReportType, SourceDescriptionType,
                                  GoodbyeType, ApplicationDefinedType}
    ensures IsRtcpPacket(b) == Ok(true)
  {
  }

  /** An RTP header's second byte is the marker bit over the payload type;
      it is taken for RTCP exactly when the marker is set and the payload
      type is 66-76 or 81-95, inside the 64-95 block section 4 of RFC 5761
      tells senders to avoid. */
  lemma RtpPayloadTypeClassification(h: RtpPacket.RtpHeader, payload: Bytes)
    requires h.Valid()
    ensures IsRtcpPacket(RtpPacket.EncodeHeader(h) + payload)
            == Ok(h.marker && (66 <= h.payloadType <= 76 || 81 <= h.payloadType <= 95))
    ensures !(64 <= h.payloadType <= 95) ==> IsRtcpPacket(RtpPacket.EncodeHeader(h) + payload) == Ok(false)
  {
    var e := RtpPacket.EncodeHeader(h);
    assert (e + payload)[1] == RtpPacket.Flag(h.marker) * 128 + h.payloadType;
  }

  /** An RTP packet laid out with a payload type outside the RTCP-shadowed
      block reaches the RTP parser, which recovers its header and payload. */
  lemma RtpPacketDispatched(h: RtpPacket.RtpHeader, payload: Bytes)
    requires h.Valid() && !(h.marker && 64 <= h.payloadType <= 95)
    ensures var r := ProcessRequest(RtpPacket.EncodeHeader(h) + payload);
            && r.Ok? && r.value.AsRtp?
            && r.value.rtp.ssrc == h.ssrc && r.value.rtp.sequenceNumber == h.sequenceNumber
            && r.value.rtp.payloadType == h.payloadType && r.value.rtp.Payload() == payload
  {
    RtpPayloadTypeClassification(h, payload);
    RtpPacket.ParseEncodedHeader(h, payload);
  }

  /** A receiver report the relay's own client sends is classified as RTCP
      and parsed, with the as-written reading of its SSRC and losses. */
  lemma ReceiverReportDispatched(p: RtcpPacket)
    requires p.ReceiverReport? && |p.reports| < 32
    ensures W.Encode(W.AsWritten, p).Ok?
    ensures ProcessRequest(W.Encode(W.AsWritten, p).value)
            == Ok(AsRtcp(RtcpClient.ReadBack(RtcpParser.AsWritten, W.AsWritten, p)))
  {
    var e := W.Encode(W.AsWritten, p);
    RtcpClient.ReadBackOne(RtcpParser.AsWritten, W.AsWritten, p, []);
    assert e.value + [] == e.value;
    var r := RtcpParser.ParseRtcpPacket(e.value);
    assert r.value.PacketType() == ReceiverReportType;
  }

  /** A one-byte datagram cannot be classified: the handler throws. */
  lemma ShortDatagramThrows(b0: uint8)
    ensures ProcessRequest([b0]) == Fail(OutOfRange)
  {
  }
}
