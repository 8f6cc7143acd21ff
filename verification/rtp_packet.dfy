/** The fixed RTP header of section 5.1 of RFC 3550 and the relay's parser
    for it (`RtpPacketParser.Parse`). The parser validates nothing: the
    version is reported as read, and the only failure is a buffer too short
    for the fixed header and the announced contributing sources. */
module RtpPacket {
  import opened Results
  import opened Bytes

  const FixedHeaderLength: nat := 12

  /** A parsed packet. The payload is a view `(payloadOffset, payloadCount)`
      into `rawBytes`, as the source's `ArraySegment<byte>`. */
  datatype RtpPacket = RtpPacket(
    version: nat,
    padding: bool,
    extension: bool,
    csrcCount: nat,
    marker: bool,
    payloadType: nat,
    sequenceNumber: uint16,
    timestamp: uint32,
    ssrc: uint32,
    contributingSources: seq<int32>,
    payloadOffset: nat,
    payloadCount: nat,
    rawBytes: Bytes)
  {
    function Payload(): Bytes
      requires payloadOffset + payloadCount <= |rawBytes|
    {
      rawBytes[payloadOffset..payloadOffset + payloadCount]
    }
  }

  function Bit(b: uint8, k: nat): bool
    requires k < 8
  {
    (b / Pow2(k)) % 2 == 1
  }

  /** Number of bytes before the payload, for a first header byte `b0`. */
  function HeaderLength(b0: uint8): nat
  {
    FixedHeaderLength + 4 * (b0 % 16)
  }

  /** `RtpPacketParser.Parse`: reads the header fields at their fixed offsets,
      then `CC` signed 32-bit contributing sources, and views the rest as payload. */
  function Parse(raw: Bytes): (r: Result<RtpPacket>)
    ensures r.Ok? <==> |raw| >= 1 && |raw| >= HeaderLength(raw[0])
    ensures r.Ok? ==>
              && r.value.rawBytes == raw
              && r.value.payloadOffset == HeaderLength(raw[0])
              && r.value.payloadOffset + r.value.payloadCount == |raw|
              && |r.value.contributingSources| == r.value.csrcCount < 16
              && r.value.version < 4 && r.value.payloadType < 128
    ensures r.Fail? ==> r.error == OutOfRange
  {
    if |raw| < 1 || |raw| < HeaderLength(raw[0]) then Fail(OutOfRange)
    else
      var b0 := raw[0];
      var b1 := raw[1];
      var cc := b0 % 16;
      Ok(RtpPacket(
        version := b0 / 64,
        padding := Bit(b0, 5),
        extension := Bit(b0, 4),
        csrcCount := cc,
        marker := b1 >= 128,
        payloadType := b1 % 128,
        sequenceNumber := U16At(raw, 2),
        timestamp := U32At(raw, 4),
        ssrc := U32At(raw, 8),
        contributingSources := seq(cc, i requires 0 <= i < cc => ToInt32(U32At(raw, 12 + 4 * i))),
        payloadOffset := FixedHeaderLength + 4 * cc,
        payloadCount := |raw| - (FixedHeaderLength + 4 * cc),
        rawBytes := raw))
  }

  /** The header fields a sender chooses, the reference the parser is checked against. */
  datatype RtpHeader = RtpHeader(
    version: nat,
    padding: bool,
    extension: bool,
    marker: bool,
    payloadType: nat,
    sequenceNumber: uint16,
    timestamp: uint32,
    ssrc: uint32,
    contributingSources: seq<int32>)
  {
    ghost predicate Valid() {
      version < 4 && payloadType < 128 && |contributingSources| < 16
    }
  }

  function Flag(b: bool): nat { if b then 1 else 0 }

  function CsrcBytes(cs: seq<int32>): (r: Bytes)
    ensures |r| == 4 * |cs|
  {
    if |cs| == 0 then [] else CsrcBytes(cs[..|cs| - 1]) + BE32(FromInt32(cs[|cs| - 1]))
  }

  /** The twelve bytes before the contributing sources. */
  function FixedBytes(h: RtpHeader): (r: Bytes)
    requires h.Valid()
    ensures |r| == FixedHeaderLength
  {
    [h.version * 64 + Flag(h.padding) * 32 + Flag(h.extension) * 16 + |h.contributingSources|,
     Flag(h.marker) * 128 + h.payloadType]
    + BE16(h.sequenceNumber) + BE32(h.timestamp) + BE32(h.ssrc)
  }

  /** The header as section 5.1 of RFC 3550 lays it out on the wire. */
  function EncodeHeader(h: RtpHeader): (r: Bytes)
    requires h.Valid()
    ensures |r| == FixedHeaderLength + 4 * |h.contributingSources|
  {
    FixedBytes(h) + CsrcBytes(h.contributingSources)
  }

  /** Contributing source `i`, laid out anywhere in a buffer, reads back as itself. */
  lemma {:induction false} CsrcReadIn(a: Bytes, cs: seq<int32>, b: Bytes, i: nat)
    requires i < |cs|
    ensures U32At(a + CsrcBytes(cs) + b, |a| + 4 * i) == FromInt32(cs[i])
    decreases |cs|
  {
    var n := |cs| - 1;
    var last := BE32(FromInt32(cs[n]));
    if i == n {
      assert a + CsrcBytes(cs) + b == (a + CsrcBytes(cs[..n])) + last + b;
      BE32ReadIn(a + CsrcBytes(cs[..n]), FromInt32(cs[n]), b);
    } else {
      assert a + CsrcBytes(cs) + b == a + CsrcBytes(cs[..n]) + (last + b);
      CsrcReadIn(a, cs[..n], last + b, i);
    }
  }

  lemma FirstByteFields(version: nat, p: bool, x: bool, cc: nat)
    requires version < 4 && cc < 16
    ensures var b0 := version * 64 + Flag(p) * 32 + Flag(x) * 16 + cc;
            b0 < 256 && b0 / 64 == version && b0 % 16 == cc
            && Bit(b0, 5) == p && Bit(b0, 4) == x
  {
    assert Pow2(5) == 32 && Pow2(4) == 16;
  }

  lemma ParsedCsrcs(h: RtpHeader, payload: Bytes)
    requires h.Valid()
    ensures forall i | 0 <= i < |h.contributingSources| ::
              ToInt32(U32At(EncodeHeader(h) + payload, 12 + 4 * i)) == h.contributingSources[i]
  {
    var cs := h.contributingSources;
    var raw := EncodeHeader(h) + payload;
    forall i | 0 <= i < |cs|
      ensures ToInt32(U32At(raw, 12 + 4 * i)) == cs[i]
    {
      CsrcReadIn(FixedBytes(h), cs, payload, i);
    }
  }

  /** The flag fields come from the first two bytes alone. */
  lemma ParseFlagsAt(raw: Bytes, h: RtpHeader)
    requires h.Valid() && |raw| >= 2
    requires raw[0] == h.version * 64 + Flag(h.padding) * 32 + Flag(h.extension) * 16 + |h.contributingSources|
    requires raw[1] == Flag(h.marker) * 128 + h.payloadType
    requires |raw| >= FixedHeaderLength + 4 * |h.contributingSources|
    ensures var r := Parse(raw);
            && r.Ok?
            && r.value.version == h.version && r.value.padding == h.padding
            && r.value.extension == h.extension && r.value.marker == h.marker
            && r.value.payloadType == h.payloadType
  {
    FirstByteFields(h.version, h.padding, h.extension, |h.contributingSources|);
  }

  lemma ParseEncodedFlags(h: RtpHeader, payload: Bytes)
    requires h.Valid()
    ensures var r := Parse(EncodeHeader(h) + payload);
            && r.Ok?
            && r.value.version == h.version && r.value.padding == h.padding
            && r.value.extension == h.extension && r.value.marker == h.marker
            && r.value.payloadType == h.payloadType
  {
    var e := EncodeHeader(h);
    var raw := e + payload;
    assert raw[0] == e[0] && raw[1] == e[1];
    ParseFlagsAt(raw, h);
  }

  lemma ParseEncodedWords(h: RtpHeader, payload: Bytes)
    requires h.Valid()
    ensures var r := Parse(EncodeHeader(h) + payload);
            && r.Ok?
            && r.value.sequenceNumber == h.sequenceNumber
            && r.value.timestamp == h.timestamp && r.value.ssrc == h.ssrc
  {
    var e := EncodeHeader(h);
    var raw := e + payload;
    FirstByteFields(h.version, h.padding, h.extension, |h.contributingSources|);
    assert raw[0] == e[0];
    var b01 := [e[0], e[1]];
    var rest := CsrcBytes(h.contributingSources) + payload;
    var ts, ssrc := BE32(h.timestamp), BE32(h.ssrc);
    assert raw == b01 + BE16(h.sequenceNumber) + (ts + ssrc + rest);
    BE16ReadIn(b01, h.sequenceNumber, ts + ssrc + rest);
    assert raw == (b01 + BE16(h.sequenceNumber)) + ts + (ssrc + rest);
    BE32ReadIn(b01 + BE16(h.sequenceNumber), h.timestamp, ssrc + rest);
    assert raw == (b01 + BE16(h.sequenceNumber) + ts) + ssrc + rest;
    BE32ReadIn(b01 + BE16(h.sequenceNumber) + ts, h.ssrc, rest);
  }

  lemma ParseEncodedCsrcs(h: RtpHeader, payload: Bytes)
    requires h.Valid()
    ensures var r := Parse(EncodeHeader(h) + payload);
            r.Ok? && r.value.contributingSources == h.contributingSources
  {
    var e := EncodeHeader(h);
    var raw := e + payload;
    FirstByteFields(h.version, h.padding, h.extension, |h.contributingSources|);
    assert raw[0] == e[0];
    ParsedCsrcs(h, payload);
  }

  lemma ParseEncodedPayload(h: RtpHeader, payload: Bytes)
    requires h.Valid()
    ensures var r := Parse(EncodeHeader(h) + payload);
            r.Ok? && r.value.Payload() == payload
  {
    var e := EncodeHeader(h);
    var raw := e + payload;
    FirstByteFields(h.version, h.padding, h.extension, |h.contributingSources|);
    assert raw[0] == e[0];
    assert raw[|e|..] == payload;
  }

  /** Parsing a header laid out by the reference encoder, followed by any
      payload, recovers every field and views exactly that payload. */
  lemma ParseEncodedHeader(h: RtpHeader, payload: Bytes)
    requires h.Valid()
    ensures var r := Parse(EncodeHeader(h) + payload);
            && r.Ok?
            && r.value.version == h.version && r.value.padding == h.padding
            && r.value.extension == h.extension && r.value.marker == h.marker
            && r.value.payloadType == h.payloadType
            && r.value.sequenceNumber == h.sequenceNumber
            && r.value.timestamp == h.timestamp && r.value.ssrc == h.ssrc
            && r.value.contributingSources == h.contributingSources
            && r.value.Payload() == payload
  {
    ParseEncodedFlags(h, payload);
    ParseEncodedWords(h, payload);
    ParseEncodedCsrcs(h, payload);
    ParseEncodedPayload(h, payload);
  }
}
