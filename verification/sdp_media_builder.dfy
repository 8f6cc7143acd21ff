/** `SdpMediaDescriptionBuilder`: the fluent setters of one media section
    and `Build`, which writes the section's lines in a fixed order. The
    setters return the updated description instead of mutating it; Guid
    defaults are parameters. */
module SdpMediaBuilder {
  import opened Results
  import opened Bytes
  import opened Text
  import opened SdpModel
  import SRM = SendReceiveMode
  import opened SdpParser

  /** `SetConnection`: network type "IN", address type "IP4". */
  function SetConnection(md: MediaDescription, address: NString): (r: MediaDescription)
    ensures r.connection == Some(Connection(Some("IN"), Some("IP4"), address))
    ensures r == md.(connection := r.connection)
  {
    md.(connection := Some(NewConnection.(addrType := Some("IP4"), address := address)))
  }

  /** `SetSendReceiveMode`: a named mode is written as the attribute that
      reads back as it; any other value is written as an empty line. */
  function SetSendReceiveMode(md: MediaDescription, mode: SRM.Mode): (r: MediaDescription)
    ensures r == md.(mode := mode)
    ensures SRM.Named(mode) ==> ModeOf(ModeAttribute(r)) == Some(mode)
    ensures !SRM.Named(mode) ==> ModeAttribute(r) == ""
  {
    md.(mode := mode)
  }

  /** `SetSupportsRtcpMultiplexing`. */
  function SetSupportsRtcpMultiplexing(md: MediaDescription, supports: bool): (r: MediaDescription)
    ensures r == md.(supportsRtcpMultiplexing := supports)
    ensures |RtcpMuxLines(r)| == (if supports then 1 else 0)
  {
    md.(supportsRtcpMultiplexing := supports)
  }

  /** `SetMediaStream`: a missing name, stream id or application data is
      replaced by a fresh Guid in "N" format, given here as `guids`. */
  function SetMediaStream(md: MediaDescription, ssrc: uint32, cname: NString, msid: NString, msIdAppData: NString,
                          guids: (string, string, string)): (r: MediaDescription)
    ensures r == md.(source := r.source) && r.source.ssrc == ssrc
    ensures r.source.cname.Some? && r.source.msId.Some? && r.source.msIdAppData.Some?
    ensures cname.Some? ==> r.source.cname == cname
    ensures msid.Some? ==> r.source.msId == msid
    ensures msIdAppData.Some? ==> r.source.msIdAppData == msIdAppData
  {
    var or := (s: NString, g: string) => if s.Some? then s else Some(g);
    md.(source := MediaSource(ssrc, or(cname, guids.0), or(msid, guids.1), or(msIdAppData, guids.2)))
  }

  /** `AddIceCandidate`: a host candidate with foundation 1 and component 1
      whose priority is the section's SSRC; the port is cast to `ushort`,
      keeping its low 16 bits. */
  function AddIceCandidate(md: MediaDescription, connectionAddress: NString, port: int32): (r: MediaDescription)
    ensures r == md.(candidates := r.candidates)
    ensures |r.candidates| == |md.candidates| + 1 && r.candidates[..|md.candidates|] == md.candidates
    ensures var c := r.candidates[|md.candidates|];
            && c.foundation == 1 && c.componentId == 1 && c.priority == md.source.ssrc
            && c.candidateType == Some("host") && c.transport == Some("UDP")
            && c.connectionAddress == connectionAddress
            && c.port % 0x1_0000 == port % 0x1_0000
  {
    var c := NewIceCandidate.(foundation := 1, componentId := 1, priority := md.source.ssrc,
                              connectionAddress := connectionAddress, port := port % 0x1_0000,
                              candidateType := Some("host"));
    assert (md.candidates + [c])[..|md.candidates|] == md.candidates;
    md.(candidates := md.candidates + [c])
  }

  /** The dictionary assignment `formats[pt] = f`: an existing key keeps its
      place and gets the new format, a new key is added at the end. */
  function SetFormat(formats: seq<MediaFormat>, f: MediaFormat): (r: seq<MediaFormat>)
    requires DistinctKeys(formats)
    ensures DistinctKeys(r)
    ensures FormatIndex(formats, f.payloadType) >= 0 ==> PayloadTypes(r) == PayloadTypes(formats)
    ensures FormatIndex(formats, f.payloadType) < 0 ==> PayloadTypes(r) == PayloadTypes(formats) + [f.payloadType]
    ensures FormatIndex(r, f.payloadType) >= 0 && r[FormatIndex(r, f.payloadType)] == f
    ensures forall k | 0 <= k < |formats| && formats[k].payloadType != f.payloadType :: r[k] == formats[k]
  {
    var i := FormatIndex(formats, f.payloadType);
    if i >= 0 then formats[i := f]
    else
      var r := formats + [f];
      assert FormatIndex(r, f.payloadType) == |formats|;
      r
  }

  /** `AddMediaFormat`. */
  function AddMediaFormat(md: MediaDescription, payloadType: int32, encodingName: NString, clockRate: int32,
                          encodingParameters: NString, formatParameters: NString,
                          rtcpFeedbackCapabilities: Option<seq<string>>): (r: MediaDescription)
    requires DistinctKeys(md.formats)
    ensures r == md.(formats := r.formats) && DistinctKeys(r.formats)
    ensures FormatIndex(r.formats, payloadType) >= 0
    ensures r.formats[FormatIndex(r.formats, payloadType)]
            == MediaFormat(payloadType, encodingName, clockRate, encodingParameters, formatParameters, rtcpFeedbackCapabilities)
  {
    md.(formats := SetFormat(md.formats, MediaFormat(payloadType, encodingName, clockRate, encodingParameters,
                                                     formatParameters, rtcpFeedbackCapabilities)))
  }

  /** `AddVideoMediaFormat`: a format without encoding parameters. */
  function AddVideoMediaFormat(md: MediaDescription, payloadType: int32, encodingName: NString, clockRate: int32,
                               formatParameters: NString, rtcpFeedbackCapabilities: Option<seq<string>>): (r: MediaDescription)
    requires DistinctKeys(md.formats)
    ensures r == AddMediaFormat(md, payloadType, encodingName, clockRate, None, formatParameters, rtcpFeedbackCapabilities)
  {
    md.(formats := SetFormat(md.formats, MediaFormat(payloadType, encodingName, clockRate, None,
                                                     formatParameters, rtcpFeedbackCapabilities)))
  }

  /** The default ICE options and DTLS role of the two setters below. */
  const DefaultIceOptions: string := "trickle"
  const DefaultSetup: string := "actpass"

  /** `SetIceParameters`: the ICE credentials and options are replaced as
      a whole, and nothing else changes. */
  function SetIceParameters(md: MediaDescription, usernameFragment: NString, password: NString, options: NString): (r: MediaDescription)
    ensures r.ice.usernameFragment == usernameFragment && r.ice.password == password && r.ice.options == options
    ensures r.(ice := md.ice) == md
  {
    md.(ice := IceAttributes(usernameFragment, password, options))
  }

  /** `SetDtlsParameters`: the DTLS role, hash function and fingerprint are
      replaced as a whole, and nothing else changes. */
  function SetDtlsParameters(md: MediaDescription, hashFunc: NString, fingerprint: NString, setup: NString): (r: MediaDescription)
    ensures r.dtls.setup == setup && r.dtls.hashFunc == hashFunc && r.dtls.fingerprint == fingerprint
    ensures r.(dtls := md.dtls) == md
  {
    md.(dtls := DtlsAttributes(setup, hashFunc, fingerprint))
  }

  /** The decimal payload types, in dictionary order. */
  function PayloadTypeTexts(formats: seq<MediaFormat>): (r: seq<string>)
    ensures |r| == |formats|
    ensures forall k | 0 <= k < |formats| :: r[k] == ToDecimal(formats[k].payloadType)
  {
    if |formats| == 0 then [] else [ToDecimal(formats[0].payloadType)] + PayloadTypeTexts(formats[1..])
  }

  /** The value of the m= line: the media, port and protocol, then the
      payload types joined by spaces (empty for no formats, which leaves a
      trailing space). */
  function MediaLineValue(md: MediaDescription): string
  {
    Join([Str(md.media), ToDecimal(md.port), Str(md.protocol), Join(PayloadTypeTexts(md.formats), " ")], " ")
  }

  /** The value of the c= line. */
  function ConnectionValue(c: Connection): string
  {
    Str(c.netType) + " " + Str(c.addrType) + " " + Str(c.address)
  }

  /** The direction attribute: empty for an unnamed mode. */
  function ModeAttribute(md: MediaDescription): string
  {
    Str(SRM.ToSdpValue(md.mode))
  }

  /** The two flag attributes the builder writes. */
  const RtcpMux: string := "rtcp-mux"
  const EndOfCandidates: string := "end-of-candidates"

  function RtcpMuxLines(md: MediaDescription): seq<string>
  {
    if md.supportsRtcpMultiplexing then [LineText("a", RtcpMux)] else []
  }

  /** The encoding of an rtpmap attribute, `<name>/<clock rate>` and
      `/<parameters>` when there are any. */
  function EncodingFields(f: MediaFormat): seq<string>
  {
    [Str(f.encodingName), ToDecimal(f.clockRate)] + (if f.encodingParameters.Some? then [f.encodingParameters.value] else [])
  }

  /** The value of a format's rtpmap attribute. */
  function RtpMapValue(f: MediaFormat): string
  {
    ToDecimal(f.payloadType) + " " + Join(EncodingFields(f), "/")
  }

  /** One rtcp-fb line per capability. */
  function FeedbackLines(pt: int32, caps: seq<string>): (r: seq<string>)
    ensures |r| == |caps|
  {
    if |caps| == 0 then []
    else [LineText("a", AttributeText("rtcp-fb", ToDecimal(pt) + " " + caps[0]))] + FeedbackLines(pt, caps[1..])
  }

  /** The block of one format: its rtpmap, its fmtp when it has
      parameters, then its feedback lines. */
  function FormatLines(f: MediaFormat): (r: seq<string>)
    ensures |r| == 1 + (if f.formatParameters.Some? then 1 else 0)
                     + (if f.rtcpFeedback.Some? then |f.rtcpFeedback.value| else 0)
  {
    [LineText("a", AttributeText("rtpmap", RtpMapValue(f)))]
    + (if f.formatParameters.Some? then [LineText("a", AttributeText("fmtp", ToDecimal(f.payloadType) + " " + f.formatParameters.value))] else [])
    + (if f.rtcpFeedback.Some? then FeedbackLines(f.payloadType, f.rtcpFeedback.value) else [])
  }

  /** The blocks of all formats, in dictionary order. */
  function FormatsLines(formats: seq<MediaFormat>): seq<string>
  {
    if |formats| == 0 then [] else FormatLines(formats[0]) + FormatsLines(formats[1..])
  }

  /** The eight space-separated fields of a candidate attribute; field 6
      is "typ". */
  function CandidateFields(c: IceCandidate): seq<string>
  {
    [ToDecimal(c.foundation), ToDecimal(c.componentId), Str(c.transport), ToDecimal(c.priority),
     Str(c.connectionAddress), ToDecimal(c.port), "typ", Str(c.candidateType)]
  }

  function CandidateValue(c: IceCandidate): string
  {
    Join(CandidateFields(c), " ")
  }

  function CandidateLines(cs: seq<IceCandidate>): (r: seq<string>)
    ensures |r| == |cs|
  {
    if |cs| == 0 then [] else [LineText("a", AttributeText("candidate", CandidateValue(cs[0])))] + CandidateLines(cs[1..])
  }

  /** The lines after the c= line and before the format blocks. */
  function HeadAttributeLines(md: MediaDescription): seq<string>
  {
    [LineText("a", ModeAttribute(md)), LineText("a", AttributeText("mid", Str(md.mediaId)))]
    + RtcpMuxLines(md)
    + [LineText("a", AttributeText("ice-ufrag", Str(md.ice.usernameFragment))),
       LineText("a", AttributeText("ice-pwd", Str(md.ice.password))),
       LineText("a", AttributeText("ice-options", Str(md.ice.options))),
       LineText("a", AttributeText("fingerprint", Str(md.dtls.hashFunc) + " " + Str(md.dtls.fingerprint))),
       LineText("a", AttributeText("setup", Str(md.dtls.setup)))]
  }

  /** The two ssrc lines. */
  function SourceLines(md: MediaDescription): seq<string>
  {
    [LineText("a", AttributeText("ssrc", ToDecimal(md.source.ssrc) + " " + AttributeText("cname", Str(md.source.cname)))),
     LineText("a", AttributeText("ssrc", ToDecimal(md.source.ssrc) + " " + AttributeText("msid", Str(md.source.msId))
                                         + " " + Str(md.source.msIdAppData)))]
  }

  /** The lines after the m= line. */
  function BodyLines(md: MediaDescription): seq<string>
    requires md.connection.Some?
  {
    [LineText("c", ConnectionValue(md.connection.value))] + HeadAttributeLines(md)
    + FormatsLines(md.formats) + SourceLines(md) + CandidateLines(md.candidates)
    + [LineText("a", EndOfCandidates)]
  }

  /** The lines of `Build`, without their terminators; a section without
      a connection throws when its c= line is formatted. */
  function BuildLines(md: MediaDescription): (r: Result<seq<string>>)
    ensures r.Fail? <==> md.connection.None?
    ensures r.Fail? ==> r.error == NullReference
  {
    if md.connection.None? then Fail(NullReference)
    else Ok([LineText("m", MediaLineValue(md))] + BodyLines(md))
  }

  /** `Build`: each line followed by "\r\n". */
  function Build(md: MediaDescription): (r: Result<string>)
    ensures r.Fail? <==> md.connection.None?
    ensures r.Ok? ==> r.value == Terminated(BuildLines(md).value)
  {
    var lines :- BuildLines(md);
    Ok(Terminated(lines))
  }
}
