/** The session description classes of the relay's SDP library
    (RFC 4566): plain records whose string properties may be null, which
    the model writes as `NString`. A dictionary of media formats keeps its
    insertion order, so it becomes a sequence with distinct payload types. */
module SdpModel {
  import opened Results
  import opened Bytes
  import opened Text
  import SendReceiveMode

  /** `SdpOrigin`, the o= line. */
  datatype Origin = Origin(
    username: NString,
    sessionId: uint64,
    sessionVersion: int64,
    netType: NString,
    addrType: NString,
    unicastAddr: NString)

  /** A fresh origin: user "-", network type "IN". */
  const NewOrigin := Origin(Some("-"), 0, 0, Some("IN"), None, None)

  /** `SdpConnection`, the c= line. */
  datatype Connection = Connection(netType: NString, addrType: NString, address: NString)

  const NewConnection := Connection(Some("IN"), None, None)

  /** `SdpIceCandidate`, one a=candidate line. */
  datatype IceCandidate = IceCandidate(
    foundation: int64,
    componentId: uint8,
    transport: NString,
    priority: uint32,
    connectionAddress: NString,
    port: uint16,
    candidateType: NString)

  const NewIceCandidate := IceCandidate(0, 0, Some("UDP"), 0, None, 0, None)

  /** `SdpMediaSourceAttributes`, the a=ssrc lines. */
  datatype MediaSource = MediaSource(ssrc: uint32, cname: NString, msId: NString, msIdAppData: NString)

  /** `SdpIceAttributes`. */
  datatype IceAttributes = IceAttributes(usernameFragment: NString, password: NString, options: NString)

  /** `SdpDtlsAttributes`. */
  datatype DtlsAttributes = DtlsAttributes(setup: NString, hashFunc: NString, fingerprint: NString)

  /** `SdpMediaFormatDescription`: one payload type of an m= line. The
      feedback list is null when a builder caller passes no array. */
  datatype MediaFormat = MediaFormat(
    payloadType: int32,
    encodingName: NString,
    clockRate: int32,
    encodingParameters: NString,
    formatParameters: NString,
    rtcpFeedback: Option<seq<string>>)

  /** A format as the parser creates it from an m= line token. */
  function NewMediaFormat(pt: int32): MediaFormat
  {
    MediaFormat(pt, None, 0, None, None, Some([]))
  }

  /** `SdpMediaDescription`. The control URL and the frame rate keep the
      text they were parsed from: `Uri` and `decimal` are not modelled. */
  datatype MediaDescription = MediaDescription(
    mediaId: NString,
    media: NString,
    supportsRtcpMultiplexing: bool,
    port: int32,
    protocol: NString,
    mode: SendReceiveMode.Mode,
    candidates: seq<IceCandidate>,
    formats: seq<MediaFormat>,
    connection: Option<Connection>,
    source: MediaSource,
    dtls: DtlsAttributes,
    ice: IceAttributes,
    controlUrl: NString,
    framerate: NString)

  /** A fresh media description: multiplexing on, the default direction,
      empty collections, empty attribute records. */
  const NewMediaDescription := MediaDescription(
    None, None, true, 0, None, SendReceiveMode.Default, [], [], None,
    MediaSource(0, None, None, None), DtlsAttributes(None, None, None),
    IceAttributes(None, None, None), None, None)

  /** `SdpSessionDescription`. */
  datatype SessionDescription = SessionDescription(
    version: uint8,
    origin: Option<Origin>,
    sessionName: NString,
    startTime: int64,
    endTime: int64,
    webRtcMediaStreamId: NString,
    bundles: Option<seq<string>>,
    media: seq<MediaDescription>)

  /** A fresh session: the name is a single space, nothing else is set. */
  const NewSessionDescription := SessionDescription(0, None, Some(" "), 0, 0, None, None, [])

  /** The payload types of a format list, in order. */
  function PayloadTypes(formats: seq<MediaFormat>): (pts: seq<int32>)
    ensures |pts| == |formats|
    ensures forall k | 0 <= k < |formats| :: pts[k] == formats[k].payloadType
  {
    seq(|formats|, k requires 0 <= k < |formats| => formats[k].payloadType)
  }

  /** A dictionary's keys are distinct. */
  predicate DistinctKeys(formats: seq<MediaFormat>)
  {
    forall i, j | 0 <= i < j < |formats| :: formats[i].payloadType != formats[j].payloadType
  }

  /** The position of a payload type, or -1 (the dictionary lookup). */
  function FormatIndex(formats: seq<MediaFormat>, pt: int): (i: int)
    ensures -1 <= i < |formats|
    ensures i >= 0 ==> formats[i].payloadType == pt
    ensures i == -1 <==> forall k | 0 <= k < |formats| :: formats[k].payloadType != pt
  {
    if |formats| == 0 then -1
    else if formats[|formats| - 1].payloadType == pt then |formats| - 1
    else FormatIndex(formats[..|formats| - 1], pt)
  }
}
