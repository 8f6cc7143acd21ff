/** `DtlsSrtpMultiplexer`: one UDP port carries STUN, DTLS and SRTP/SRTCP;
    the first byte of a datagram picks the handler, following the table of
    section 5.1.2 of RFC 5764. */
module DtlsSrtpMultiplexer {
  import opened Results
  import opened Bytes
  import opened Rtcp
  import W = RtcpSerializer
  import RtpPacket

  datatype Protocol = Stun | Dtls | Rtp | Unknown

  /** `DetermineProtocolType`. */
  function DetermineProtocol(b: Bytes): (r: Protocol)
    ensures |b| == 0 ==> r == Unknown
    ensures |b| > 0 ==> (r == Rtp <==> 128 <= b[0] <= 191)
    ensures |b| > 0 ==> (r == Dtls <==> 20 <= b[0] <= 63)
    ensures |b| > 0 ==> (r == Stun <==> b[0] <= 1)
  {
    if |b| == 0 then Unknown
    else
      var first := b[0];
      if 127 < first < 192 then Rtp
      else if 19 < first < 64 then Dtls
      else if first < 2 then Stun
      else Unknown
  }

  /** The handler a datagram is handed to; `None` when it is dropped. */
  function Route(b: Bytes): (r: Option<Protocol>)
    ensures r.Some? ==> r.value != Unknown && r.value == DetermineProtocol(b)
    ensures r.None? <==> DetermineProtocol(b) == Unknown
  {
    if |b| == 0 then None
    else
      match DetermineProtocol(b)
      case Unknown => None
      case p => Some(p)
  }

  /** Any datagram that starts with RTP version 2 in its top bits, RTP or
      RTCP alike, goes to the RTP handler. */
  lemma VersionTwoGoesToRtp(b: Bytes)
    requires |b| > 0 && b[0] / 64 == 2
    ensures Route(b) == Some(Rtp)
  {
  }

  /** An RTP header of version 2 goes to the RTP handler. */
  lemma RtpHeaderRouted(h: RtpPacket.RtpHeader, payload: Bytes)
    requires h.Valid() && h.version == 2
    ensures Route(RtpPacket.EncodeHeader(h) + payload) == Some(Rtp)
  {
    RtpPacket.FirstByteFields(h.version, h.padding, h.extension, |h.contributingSources|);
    var b := RtpPacket.EncodeHeader(h) + payload;
    assert b[0] / 64 == 2;
    VersionTwoGoesToRtp(b);
  }

  /** Every RTCP packet the relay's serializer lays out goes to the RTP handler. */
  lemma RtcpPacketRouted(w: W.Writing, p: RtcpPacket)
    requires W.Encode(w, p).Ok?
    requires p.ReceiverReport? ==> |p.reports| < 32
    requires p.SourceDescription? ==> |p.chunks| < 32
    requires p.ReceiverReport? || p.SourceDescription?
    ensures Route(W.Encode(w, p).value) == Some(Rtp)
  {
    var e := W.Encode(w, p).value;
    var count := if p.ReceiverReport? then |p.reports| else |p.chunks|;
    var header := W.Header(p.padding, count, p.PacketType(), LengthWords(p).value);
    var size := AnnouncedSize(p).value;
    if p.ReceiverReport? {
      var b := W.WriteAt(Zeros(size), 0, header + BE32(p.ssrc)).value;
      assert b[0] == header[0];
      W.WriteReportsLength(w, b, ReportHeaderLength, p.reports);
      if |p.reports| > 0 {
        W.WriteReportsImage(w, b, ReportHeaderLength, p.reports);
      }
      assert e[0] == b[0];
    } else {
      assert e[0] == header[0];
    }
    assert header[0] / 64 == 2;
  }

  /** A DTLS record starts with its content type; the four of section 6.2.1
      of RFC 6347 (20-23) all go to the DTLS handler. */
  lemma DtlsRecordRouted(contentType: uint8, rest: Bytes)
    requires 20 <= contentType <= 23
    ensures Route([contentType] + rest) == Some(Dtls)
  {
  }

  /** STUN message types below 0x200, the only ones this relay uses, put
      0 or 1 in the first byte and go to the STUN handler. */
  lemma StunMessageRouted(messageType: uint16, rest: Bytes)
    requires messageType < 0x200
    ensures Route(BE16(messageType) + rest) == Some(Stun)
  {
  }

  /** Bytes 2-19, 64-127 and 192-255 reach no handler. */
  lemma OtherBytesDropped(b: Bytes)
    requires |b| > 0 && (2 <= b[0] <= 19 || 64 <= b[0] <= 127 || 192 <= b[0])
    ensures Route(b).None?
  {
  }
}
