/** `SdpBuilder`: the session-level setters, `AddMediaDescription` and
    `Build`, which writes the session lines and then every media section
    in the order the sections were added. The builder's state is the
    session description itself: its list of section builders is the list
    of sections, appended to in step. The random session id bytes are a
    parameter. */
module SdpBuilder {
  import opened Results
  import opened Bytes
  import opened Text
  import opened SdpModel
  import opened SdpParser
  import MB = SdpMediaBuilder

  /** `SetOrigin`: eight random bytes read little-endian with the last one
      cleared, so the session id stays below 2^56. */
  function SetOrigin(sd: SessionDescription, sessionVersion: int32, unicastAddr: NString, random: Bytes): (r: SessionDescription)
    requires |random| == 8
    ensures r == sd.(origin := r.origin) && r.origin.Some?
    ensures var o := r.origin.value;
            && o.sessionId < Pow2(56) && o.sessionId == LEValue(random[..7])
            && o.sessionVersion == sessionVersion && o.unicastAddr == unicastAddr
            && o.username == Some("-") && o.netType == Some("IN") && o.addrType == Some("IP4")
  {
    var sid := random[..7] + [0];
    LEValueTrailingZero(random[..7]);
    LEValueBound(random[..7]);
    Pow2Widths();
    Pow2Add(32, 32);
    Pow2Add(56, 8);
    var id: uint64 := LEValue(sid);
    sd.(origin := Some(NewOrigin.(sessionId := id, sessionVersion := sessionVersion,
                                  addrType := Some("IP4"), unicastAddr := unicastAddr)))
  }

  /** `SetSessionName`. */
  function SetSessionName(sd: SessionDescription, sessionName: NString): (r: SessionDescription)
    ensures r == sd.(sessionName := sessionName)
  {
    sd.(sessionName := sessionName)
  }

  /** `SetTiming`. */
  function SetTiming(sd: SessionDescription, startTime: int64, endTime: int64): (r: SessionDescription)
    ensures r == sd.(startTime := startTime, endTime := endTime)
  {
    sd.(startTime := startTime, endTime := endTime)
  }

  /** `SetBundle`: the media ids of the bundle, in the order given. */
  function SetBundle(sd: SessionDescription, mediaIds: seq<string>): (r: SessionDescription)
    ensures r == sd.(bundles := Some(mediaIds))
  {
    sd.(bundles := Some(mediaIds))
  }

  /** `SetWebRtcMediaStreamId`. */
  function SetWebRtcMediaStreamId(sd: SessionDescription, mediaStreamId: NString): (r: SessionDescription)
    ensures r == sd.(webRtcMediaStreamId := mediaStreamId)
  {
    sd.(webRtcMediaStreamId := mediaStreamId)
  }

  /** The protocol `AddMediaDescription` uses unless told otherwise. */
  const DefaultProtocol: string := "UDP/TLS/RTP/SAVPF"

  /** `AddMediaDescription`: a fresh section added after the existing ones;
      the index stands for the section builder returned. */
  function AddMediaDescription(sd: SessionDescription, mediaId: NString, media: NString, port: int32, protocol: NString)
    : (r: (SessionDescription, nat))
    ensures r.0 == sd.(media := r.0.media)
    ensures |r.0.media| == |sd.media| + 1 && r.0.media[..|sd.media|] == sd.media && r.1 == |sd.media|
    ensures var md := r.0.media[r.1];
            && md.mediaId == mediaId && md.media == media && md.port == port && md.protocol == protocol
            && md.formats == [] && md.candidates == [] && md.supportsRtcpMultiplexing
  {
    var md := NewMediaDescription.(mediaId := mediaId, media := media, port := port, protocol := protocol);
    assert (sd.media + [md])[..|sd.media|] == sd.media;
    (sd.(media := sd.media + [md]), |sd.media|)
  }

  /** The six space-separated fields of the o= line. */
  function OriginFields(o: Origin): seq<string>
  {
    [Str(o.username), ToDecimal(o.sessionId), ToDecimal(o.sessionVersion), Str(o.netType), Str(o.addrType), Str(o.unicastAddr)]
  }

  function OriginValue(o: Origin): string
  {
    Join(OriginFields(o), " ")
  }

  /** The six session lines, without terminators: the version is always
      written as 0, and a null bundle list throws in `string.Join`. */
  function SessionLines(sd: SessionDescription): (r: Result<seq<string>>)
    ensures r.Fail? <==> sd.origin.None? || sd.bundles.None?
    ensures r.Ok? ==> |r.value| == 6
  {
    if sd.origin.None? then Fail(NullReference)
    else if sd.bundles.None? then Fail(ArgumentNull)
    else Ok([LineText("v", "0"),
             LineText("o", OriginValue(sd.origin.value)),
             LineText("s", Str(sd.sessionName)),
             LineText("t", ToDecimal(sd.startTime) + " " + ToDecimal(sd.endTime)),
             LineText("a", AttributeText("group", BundleGroup + Join(sd.bundles.value, " "))),
             LineText("a", AttributeText("msid-semantic", Wms + Str(sd.webRtcMediaStreamId)))])
  }

  /** The built media sections one after another; the first section
      without a connection throws. */
  function BuildMedia(media: seq<MediaDescription>): (r: Result<string>)
    ensures r.Fail? <==> exists k | 0 <= k < |media| :: media[k].connection.None?
  {
    if |media| == 0 then Ok("")
    else
      var first :- MB.Build(media[0]);
      var rest :- BuildMedia(media[1..]);
      assert forall k | 1 <= k < |media| :: media[k] == media[1..][k - 1];
      Ok(first + rest)
  }

  /** `Build`: the session lines, then each section's text. */
  function Build(sd: SessionDescription): (r: Result<string>)
    ensures r.Fail? <==> sd.origin.None? || sd.bundles.None? || exists k | 0 <= k < |sd.media| :: sd.media[k].connection.None?
  {
    var head :- SessionLines(sd);
    var media :- BuildMedia(sd.media);
    Ok(Terminated(head) + media)
  }
}
