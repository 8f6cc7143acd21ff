/** `SdpParser`: a session description read line by line (RFC 4566).
    Each line is `key=value`. Until the first m= line the keys v, o, s, t
    and a fill the session; an m= line opens a media section that reads
    every remaining line, c and a lines filling it and a further m= line
    opening a nested section, so sections are added innermost first. The
    shared `StringReader` becomes the sequence of lines still unread; an
    exception becomes `Fail`. */
module SdpParser {
  import opened Results
  import opened Bytes
  import opened Text
  import opened SdpModel
  import SRM = SendReceiveMode

  /** `TryGet`: the part at `idx`, null past the end. */
  function TryGet(parts: seq<string>, idx: nat): (r: NString)
    ensures r.Some? <==> idx < |parts|
    ensures r.Some? ==> r.value == parts[idx]
  {
    if idx < |parts| then Some(parts[idx]) else None
  }

  /** The `Parse` methods of the integer types the classes use. */
  function ParseUInt8(s: NString): Result<uint8>
  {
    var v :- ParseInteger(s, 0, 0xFF);
    Ok(v)
  }

  function ParseUInt16(s: NString): Result<uint16>
  {
    var v :- ParseInteger(s, 0, 0xFFFF);
    Ok(v)
  }

  function ParseInt32(s: NString): Result<int32>
  {
    var v :- ParseInteger(s, -0x8000_0000, 0x7FFF_FFFF);
    Ok(v)
  }

  function ParseUInt32(s: NString): Result<uint32>
  {
    var v :- ParseInteger(s, 0, 0xFFFF_FFFF);
    Ok(v)
  }

  function ParseInt64(s: NString): Result<int64>
  {
    var v :- ParseInteger(s, -0x8000_0000_0000_0000, 0x7FFF_FFFF_FFFF_FFFF);
    Ok(v)
  }

  function ParseUInt64(s: NString): Result<uint64>
  {
    var v :- ParseInteger(s, 0, 0xFFFF_FFFF_FFFF_FFFF);
    Ok(v)
  }

  /** One `key=value` line. */
  datatype SdpLine = SdpLine(key: string, value: string)

  /** `ParseSdpLine`: the split at the first '='; without one,
      `Substring(0, -1)` throws. */
  function ParseSdpLine(line: string): (r: Result<SdpLine>)
    ensures r.Fail? <==> '=' !in line
    ensures r.Fail? ==> r.error == OutOfRange
    ensures r.Ok? ==> '=' !in r.value.key && r.value.key + "=" + r.value.value == line
  {
    var i := IndexOf(line, '=');
    if i == -1 then Fail(OutOfRange)
    else
      assert line[..i] + "=" + line[i + 1..] == line;
      Ok(SdpLine(line[..i], line[i + 1..]))
  }

  /** An attribute: the name before the first ':' and the text after it. */
  datatype Attribute = Attribute(key: string, value: NString)

  /** `ParseAttributeKeyValue`: without ':' the whole text is the name and
      the value is null. */
  function ParseAttributeKeyValue(attribute: string): (r: Attribute)
    ensures r.value.None? <==> ':' !in attribute
    ensures r.value.None? ==> r.key == attribute
    ensures r.value.Some? ==> ':' !in r.key && r.key + ":" + r.value.value == attribute
  {
    var i := IndexOf(attribute, ':');
    if i == -1 then Attribute(attribute, None)
    else
      assert attribute[..i] + ":" + attribute[i + 1..] == attribute;
      Attribute(attribute[..i], Some(attribute[i + 1..]))
  }

  /** An attribute as a builder writes it, `<key>:<value>`. */
  function AttributeText(key: string, value: string): string
  {
    key + ":" + value
  }

  /** Reading back a written attribute whose name has no ':'. */
  lemma ParseAttributeText(key: string, value: string)
    requires ':' !in key
    ensures ParseAttributeKeyValue(AttributeText(key, value)) == Attribute(key, Some(value))
  {
    IndexOfPrefix(key, ':', value);
    assert AttributeText(key, value)[|key| + 1..] == value;
  }

  /** A line as `AddSdpLine` writes it, without its terminator. */
  function LineText(key: string, value: string): string
  {
    key + "=" + value
  }

  /** Reading back a written line whose key has no '='. */
  lemma ParseLineText(key: string, value: string)
    requires '=' !in key
    ensures ParseSdpLine(LineText(key, value)) == Ok(SdpLine(key, value))
  {
    IndexOfPrefix(key, '=', value);
    assert LineText(key, value)[..|key|] == key;
    assert LineText(key, value)[|key| + 1..] == value;
  }

  /** The pattern `msid-semantic` searches for. */
  const Wms: string := " WMS "

  /** `ParseSessionAttribute`: `bundle` sets the bundle list and
      `msid-semantic` the stream id, from the character after the space
      that opens " WMS " (the whole value when that is absent); any other
      attribute, or one without a value, is ignored. */
  function ParseSessionAttribute(sd: SessionDescription, attribute: string): (r: SessionDescription)
    ensures r.origin == sd.origin && r.media == sd.media && r.version == sd.version
  {
    var a := ParseAttributeKeyValue(attribute);
    if a.key == "bundle" && a.value.Some? then
      sd.(bundles := Some(Split(a.value.value, ' ')))
    else if a.key == "msid-semantic" && a.value.Some? then
      var v := a.value.value;
      sd.(webRtcMediaStreamId := Some(v[IndexOfString(v, Wms) + 1..]))
    else sd
  }

  /** `ParseOriginLine`: six space-separated fields, the numeric ones
      parsed in order. */
  function ParseOriginLine(value: string): (r: Result<Origin>)
    ensures var parts := Split(value, ' ');
            r.Ok? ==> r.value.username == TryGet(parts, 0) && r.value.netType == TryGet(parts, 3)
                      && r.value.addrType == TryGet(parts, 4) && r.value.unicastAddr == TryGet(parts, 5)
  {
    var parts := Split(value, ' ');
    var sid :- ParseUInt64(TryGet(parts, 1));
    var version :- ParseInt64(TryGet(parts, 2));
    Ok(Origin(TryGet(parts, 0), sid, version, TryGet(parts, 3), TryGet(parts, 4), TryGet(parts, 5)))
  }

  /** `ParseConnectionLine`: three space-separated fields. */
  function ParseConnectionLine(value: string): (r: Connection)
    ensures var parts := Split(value, ' ');
            r == Connection(TryGet(parts, 0), TryGet(parts, 1), TryGet(parts, 2))
  {
    var parts := Split(value, ' ');
    Connection(TryGet(parts, 0), TryGet(parts, 1), TryGet(parts, 2))
  }

  /** The payload types of an m= line, added to the dictionary in order:
      a token that is not an `int` fails, a repeated one is a duplicate key. */
  function ParseFormats(tokens: seq<string>, acc: seq<MediaFormat>): (r: Result<seq<MediaFormat>>)
    requires DistinctKeys(acc)
    ensures r.Ok? ==> DistinctKeys(r.value) && |r.value| == |acc| + |tokens| && r.value[..|acc|] == acc
    ensures r.Ok? ==> forall j | |acc| <= j < |r.value| ::
                        && r.value[j] == NewMediaFormat(r.value[j].payloadType)
                        && ParseInt32(Some(tokens[j - |acc|])) == Ok(r.value[j].payloadType)
    decreases |tokens|
  {
    if |tokens| == 0 then Ok(acc)
    else
      var pt :- ParseInt32(Some(tokens[0]));
      if FormatIndex(acc, pt) >= 0 then Fail(DuplicateKey)
      else
        var acc' := acc + [NewMediaFormat(pt)];
        var formats :- ParseFormats(tokens[1..], acc');
        assert formats[..|acc|] == formats[..|acc'|][..|acc|];
        assert formats[|acc|] == formats[..|acc'|][|acc|] == NewMediaFormat(pt);
        Ok(formats)
  }

  /** The first line of a media section, `m=<media> <port> <proto> <fmt> ...`,
      on a fresh media description. */
  function ParseMediaLine(medialine: string): (r: Result<MediaDescription>)
    ensures var parts := Split(medialine, ' ');
            r.Ok? ==> && r.value.media == TryGet(parts, 0)
                      && ParseInt32(TryGet(parts, 1)) == Ok(r.value.port)
                      && r.value.protocol == TryGet(parts, 2)
                      && |r.value.formats| == |parts| - Min(|parts|, 3)
                      && DistinctKeys(r.value.formats)
  {
    var parts := Split(medialine, ' ');
    var port :- ParseInt32(TryGet(parts, 1));
    var formats :- ParseFormats(parts[Min(|parts|, 3)..], []);
    Ok(NewMediaDescription.(media := TryGet(parts, 0), port := port, protocol := TryGet(parts, 2), formats := formats))
  }

  function Min(a: nat, b: nat): nat { if a <= b then a else b }

  /** The parts of a payload-specific attribute, `<pt> <rest>`; without a
      space `Substring(0, -1)` throws. */
  function SplitPayloadType(value: string): (r: Result<(string, string)>)
    ensures r.Fail? <==> ' ' !in value
    ensures r.Ok? ==> ' ' !in r.value.0 && r.value.0 + " " + r.value.1 == value
  {
    var i := IndexOf(value, ' ');
    if i == -1 then Fail(OutOfRange)
    else
      assert value[..i] + " " + value[i + 1..] == value;
      Ok((value[..i], value[i + 1..]))
  }

  /** `ParseRtpMapAttribute`: `<pt> <name>/<clock rate>[/<parameters>]` for
      a payload type of the m= line; the clock rate is kept when the field
      is not an `int`. */
  function ParseRtpMapAttribute(md: MediaDescription, value: string): (r: Result<MediaDescription>)
    ensures r.Ok? ==> PayloadTypes(r.value.formats) == PayloadTypes(md.formats)
    ensures r.Ok? ==> r.value == md.(formats := r.value.formats)
  {
    var (ptText, encoding) :- SplitPayloadType(value);
    var pt :- ParseInt32(Some(ptText));
    var encodingParts := Split(encoding, '/');
    var i := FormatIndex(md.formats, pt);
    if i < 0 then Fail(KeyNotFound)
    else
      var f := md.formats[i];
      var clock := TryParseInt32(TryGet(encodingParts, 1));
      var f' := f.(encodingName := Some(encodingParts[0]),
                   clockRate := if clock.Some? then clock.value else f.clockRate,
                   encodingParameters := TryGet(encodingParts, 2));
      Ok(md.(formats := md.formats[i := f']))
  }

  /** `ParseFormatParametersAttribute`: `<pt> <parameters>`. */
  function ParseFormatParametersAttribute(md: MediaDescription, value: string): (r: Result<MediaDescription>)
    ensures r.Ok? ==> PayloadTypes(r.value.formats) == PayloadTypes(md.formats)
    ensures r.Ok? ==> r.value == md.(formats := r.value.formats)
  {
    var (ptText, parameters) :- SplitPayloadType(value);
    var pt :- ParseInt32(Some(ptText));
    var i := FormatIndex(md.formats, pt);
    if i < 0 then Fail(KeyNotFound)
    else Ok(md.(formats := md.formats[i := md.formats[i].(formatParameters := Some(parameters))]))
  }

  /** Appends a feedback capability to one format; a null list throws. */
  function AddFeedback(f: MediaFormat, cap: string): Result<MediaFormat>
  {
    if f.rtcpFeedback.None? then Fail(NullReference)
    else Ok(f.(rtcpFeedback := Some(f.rtcpFeedback.value + [cap])))
  }

  /** The capability added to every format in order (the "*" wildcard). */
  function AddFeedbackToAll(formats: seq<MediaFormat>, cap: string): (r: Result<seq<MediaFormat>>)
    ensures r.Ok? ==> PayloadTypes(r.value) == PayloadTypes(formats)
    ensures r.Ok? ==> forall k | 0 <= k < |formats| :: AddFeedback(formats[k], cap) == Ok(r.value[k])
  {
    if |formats| == 0 then Ok([])
    else
      var f :- AddFeedback(formats[0], cap);
      var rest :- AddFeedbackToAll(formats[1..], cap);
      assert forall k | 1 <= k < |formats| :: formats[k] == formats[1..][k - 1];
      Ok([f] + rest)
  }

  /** `ParseRtcpFeedbackCapabilityAttribute`: `<pt> <capability>`, where
      the payload type "*" stands for every format. */
  function ParseRtcpFeedbackCapabilityAttribute(md: MediaDescription, value: string): (r: Result<MediaDescription>)
    ensures r.Ok? ==> PayloadTypes(r.value.formats) == PayloadTypes(md.formats)
    ensures r.Ok? ==> r.value == md.(formats := r.value.formats)
  {
    var (ptText, cap) :- SplitPayloadType(value);
    if ptText == "*" then
      var formats :- AddFeedbackToAll(md.formats, cap);
      Ok(md.(formats := formats))
    else
      var pt :- ParseInt32(Some(ptText));
      var i := FormatIndex(md.formats, pt);
      if i < 0 then Fail(KeyNotFound)
      else
        var f :- AddFeedback(md.formats[i], cap);
        Ok(md.(formats := md.formats[i := f]))
  }

  /** `ParseSsrcAttribute`: the SSRC from the first field; the second is
      compared whole with "cname" and "msid", and on a match that token
      itself is stored. */
  function ParseSsrcAttribute(md: MediaDescription, value: string): (r: Result<MediaDescription>)
    ensures r.Ok? ==> r.value == md.(source := r.value.source)
    ensures r.Ok? ==> ParseUInt32(TryGet(Split(value, ' '), 0)) == Ok(r.value.source.ssrc)
  {
    var parts := Split(value, ' ');
    var ssrc :- ParseUInt32(TryGet(parts, 0));
    var param := TryGet(parts, 1);
    var source := md.source.(ssrc := ssrc);
    if param == Some("cname") then Ok(md.(source := source.(cname := param)))
    else if param == Some("msid") then Ok(md.(source := source.(msId := param, msIdAppData := TryGet(parts, 2))))
    else Ok(md.(source := source))
  }

  /** A candidate attribute: fields 0 to 5, then the type at field 7. */
  function ParseCandidate(value: string): (r: Result<IceCandidate>)
    ensures var parts := Split(value, ' ');
            r.Ok? ==> && r.value.transport == TryGet(parts, 2)
                      && r.value.connectionAddress == TryGet(parts, 4)
                      && r.value.candidateType == TryGet(parts, 7)
  {
    var parts := Split(value, ' ');
    var foundation :- ParseInt64(TryGet(parts, 0));
    var component :- ParseUInt8(TryGet(parts, 1));
    var priority :- ParseUInt32(TryGet(parts, 3));
    var port :- ParseUInt16(TryGet(parts, 5));
    Ok(IceCandidate(foundation, component, TryGet(parts, 2), priority, TryGet(parts, 4), port, TryGet(parts, 7)))
  }

  /** The direction a direction attribute names. */
  function ModeOf(key: string): (r: Option<SRM.Mode>)
    ensures r.Some? ==> SRM.Named(r.value)
  {
    if key == "sendrecv" then Some(SRM.SendRecv)
    else if key == "sendonly" then Some(SRM.SendOnly)
    else if key == "recvonly" then Some(SRM.RecvOnly)
    else if key == "inactive" then Some(SRM.Inactive)
    else None
  }

  /** `ParseMediaDescriptionAttribute`: one a= line of a media section. A
      parser that dereferences the value throws on a missing one; an
      unknown attribute changes nothing. The labels of the `switch` are
      distinct, so testing the direction names first changes nothing. */
  function ParseMediaDescriptionAttribute(md: MediaDescription, attribute: string): (r: Result<MediaDescription>)
    ensures r.Ok? ==> && r.value.media == md.media && r.value.port == md.port
                      && r.value.protocol == md.protocol
                      && PayloadTypes(r.value.formats) == PayloadTypes(md.formats)
  {
    var a := ParseAttributeKeyValue(attribute);
    var key, value := a.key, a.value;
    if ModeOf(key).Some? then Ok(md.(mode := ModeOf(key).value))
    else if key == "control" then
      if value.None? then Fail(ArgumentNull) else Ok(md.(controlUrl := value))
    else if key == "framerate" then
      if value.None? then Fail(ArgumentNull) else Ok(md.(framerate := value))
    else if key == "mid" then Ok(md.(mediaId := value))
    else if key == "ice-ufrag" then Ok(md.(ice := md.ice.(usernameFragment := value)))
    else if key == "ice-pwd" then Ok(md.(ice := md.ice.(password := value)))
    else if key == "ice-options" then Ok(md.(ice := md.ice.(options := value)))
    else if key == "fingerprint" then
      if value.None? then Fail(NullReference)
      else
        var parts := Split(value.value, ' ');
        Ok(md.(dtls := md.dtls.(hashFunc := TryGet(parts, 0), fingerprint := TryGet(parts, 1))))
    else if key == "setup" then Ok(md.(dtls := md.dtls.(setup := value)))
    else if key == "rtpmap" then
      if value.None? then Fail(NullReference) else ParseRtpMapAttribute(md, value.value)
    else if key == "fmtp" then
      if value.None? then Fail(NullReference) else ParseFormatParametersAttribute(md, value.value)
    else if key == "rtcp-fb" then
      if value.None? then Fail(NullReference) else ParseRtcpFeedbackCapabilityAttribute(md, value.value)
    else if key == "ssrc" then
      if value.None? then Fail(NullReference) else ParseSsrcAttribute(md, value.value)
    else if key == "candidate" then
      if value.None? then Fail(NullReference)
      else
        var c :- ParseCandidate(value.value);
        Ok(md.(candidates := md.candidates + [c]))
    else Ok(md)
  }

  /** What one session-level line does: update the session, or open a
      media section with the value of an m= line. */
  datatype SessionStep = Next(sd: SessionDescription) | OpenMedia(medialine: string)

  /** The `switch` of `ParseSessionDescription` on one line; an unknown
      key leaves the session as it was. */
  function SessionLine(sd: SessionDescription, line: string): (r: Result<SessionStep>)
    ensures r.Ok? && r.value.Next? ==> r.value.sd.media == sd.media
    ensures r.Ok? ==> ParseSdpLine(line).Ok? && (r.value.OpenMedia? <==> ParseSdpLine(line).value.key == "m")
    ensures r.Ok? && r.value.OpenMedia? ==> r.value.medialine == ParseSdpLine(line).value.value
  {
    var l :- ParseSdpLine(line);
    if l.key == "v" then
      var v :- ParseUInt8(Some(l.value));
      Ok(Next(sd.(version := v)))
    else if l.key == "o" then
      var o :- ParseOriginLine(l.value);
      Ok(Next(sd.(origin := Some(o))))
    else if l.key == "s" then Ok(Next(sd.(sessionName := Some(l.value))))
    else if l.key == "t" then
      var timeParts := Split(l.value, ' ');
      var start :- ParseInt64(Some(timeParts[0]));
      if |timeParts| < 2 then Fail(OutOfRange)
      else
        var end :- ParseInt64(Some(timeParts[1]));
        Ok(Next(sd.(startTime := start, endTime := end)))
    else if l.key == "m" then Ok(OpenMedia(l.value))
    else if l.key == "a" then Ok(Next(ParseSessionAttribute(sd, l.value)))
    else Ok(Next(sd))
  }

  /** `ParseSessionDescription` over the unread lines. An m= line hands
      every remaining line to its media section. */
  function ParseSession(sd: SessionDescription, lines: seq<string>): (r: Result<SessionDescription>)
    decreases |lines|, 2
  {
    if |lines| == 0 then Ok(sd)
    else
      var step :- SessionLine(sd, lines[0]);
      match step
      case Next(sd') => ParseSession(sd', lines[1..])
      case OpenMedia(medialine) => ParseMediaSection(sd, medialine, lines[1..])
  }

  /** `ParseMediaDescription`: the m= line, then the section's lines. */
  function ParseMediaSection(sd: SessionDescription, medialine: string, lines: seq<string>): (r: Result<SessionDescription>)
    decreases |lines|, 1
  {
    var md :- ParseMediaLine(medialine);
    ParseMediaLines(sd, md, lines)
  }

  /** What one line inside a media section does: update the section, or
      open a nested section with the value of an m= line. */
  datatype MediaStep = Continue(md: MediaDescription) | Nested(medialine: string)

  /** The `switch` of the `ParseMediaDescription` loop on one line; c and a
      lines fill the section and any other key but m is skipped. */
  function MediaLine(md: MediaDescription, line: string): (r: Result<MediaStep>)
    ensures r.Ok? && r.value.Continue? ==> r.value.md.media == md.media
    ensures r.Ok? ==> ParseSdpLine(line).Ok? && (r.value.Nested? <==> ParseSdpLine(line).value.key == "m")
    ensures r.Ok? && r.value.Nested? ==> r.value.medialine == ParseSdpLine(line).value.value
  {
    var l :- ParseSdpLine(line);
    if l.key == "c" then Ok(Continue(md.(connection := Some(ParseConnectionLine(l.value)))))
    else if l.key == "a" then
      var md' :- ParseMediaDescriptionAttribute(md, l.value);
      Ok(Continue(md'))
    else if l.key == "m" then Ok(Nested(l.value))
    else Ok(Continue(md))
  }

  /** The loop of `ParseMediaDescription`: a nested m= line parses the rest
      into the session, after which the reader is exhausted; at the end the
      section is added. */
  function ParseMediaLines(sd: SessionDescription, md: MediaDescription, lines: seq<string>): (r: Result<SessionDescription>)
    decreases |lines|, 0
  {
    if |lines| == 0 then Ok(sd.(media := sd.media + [md]))
    else
      var step :- MediaLine(md, lines[0]);
      match step
      case Continue(md') => ParseMediaLines(sd, md', lines[1..])
      case Nested(medialine) =>
        var sd' :- ParseMediaSection(sd, medialine, lines[1..]);
        Ok(sd'.(media := sd'.media + [md]))
  }

  /** `Parse`: the lines `StringReader.ReadLine` yields, on a fresh session. */
  function Parse(sdp: string): Result<SessionDescription>
  {
    ParseSession(NewSessionDescription, Lines(sdp))
  }

  /** Each direction attribute parses to the mode whose SDP value it is,
      and `ModeOf` is the inverse of `ToSdpValue` on the named modes. */
  lemma ModeOfToSdpValue(m: SRM.Mode)
    requires SRM.Named(m)
    ensures ModeOf(SRM.ToSdpValue(m).value) == Some(m)
  {
  }

  lemma ToSdpValueOfModeOf(key: string)
    requires ModeOf(key).Some?
    ensures SRM.ToSdpValue(ModeOf(key).value) == Some(key)
  {
  }

  /** A direction attribute line sets the mode and nothing else. */
  lemma DirectionAttribute(md: MediaDescription, m: SRM.Mode)
    requires SRM.Named(m)
    ensures ParseMediaDescriptionAttribute(md, SRM.ToSdpValue(m).value) == Ok(md.(mode := m))
  {
    var key := SRM.ToSdpValue(m).value;
    assert ':' !in key;
    ModeOfToSdpValue(m);
  }

  /** The media name an m= line value carries. */
  function MediaName(value: string): NString
  {
    TryGet(Split(value, ' '), 0)
  }

  /** The media names of the m= lines among `lines`, in order. */
  function MediaKeys(lines: seq<string>): seq<NString>
  {
    if |lines| == 0 then []
    else
      var l := ParseSdpLine(lines[0]);
      (if l.Ok? && l.value.key == "m" then [MediaName(l.value.value)] else []) + MediaKeys(lines[1..])
  }

  function Reverse<T>(s: seq<T>): (r: seq<T>)
    ensures |r| == |s|
  {
    if |s| == 0 then [] else Reverse(s[1..]) + [s[0]]
  }

  /** The media names of a list of sections. */
  function MediaNames(media: seq<MediaDescription>): (r: seq<NString>)
    ensures |r| == |media|
  {
    if |media| == 0 then [] else MediaNames(media[..|media| - 1]) + [media[|media| - 1].media]
  }

  lemma MediaNamesAppend(media: seq<MediaDescription>, md: MediaDescription)
    ensures MediaNames(media + [md]) == MediaNames(media) + [md.media]
  {
    assert (media + [md])[..|media|] == media;
  }

  /** A media section changes the session only by adding sections after
      the ones it had: those of the nested m= lines in reverse order of
      appearance, then its own. */
  lemma {:induction false} MediaSectionOrder(sd: SessionDescription, value: string, lines: seq<string>)
    ensures var r := ParseMediaSection(sd, value, lines);
            r.Ok? ==> && r.value == sd.(media := r.value.media)
                      && |r.value.media| > |sd.media| && r.value.media[..|sd.media|] == sd.media
                      && MediaNames(r.value.media) == MediaNames(sd.media) + Reverse([MediaName(value)] + MediaKeys(lines))
    decreases |lines|, 1
  {
    var md := ParseMediaLine(value);
    if md.Ok? {
      MediaLinesOrder(sd, md.value, lines);
      assert Reverse([MediaName(value)] + MediaKeys(lines)) == Reverse(MediaKeys(lines)) + [md.value.media] by {
        assert ([MediaName(value)] + MediaKeys(lines))[1..] == MediaKeys(lines);
      }
    }
  }

  lemma {:induction false} MediaLinesOrder(sd: SessionDescription, md: MediaDescription, lines: seq<string>)
    ensures var r := ParseMediaLines(sd, md, lines);
            r.Ok? ==> && r.value == sd.(media := r.value.media)
                      && |r.value.media| > |sd.media| && r.value.media[..|sd.media|] == sd.media
                      && MediaNames(r.value.media) == MediaNames(sd.media) + Reverse(MediaKeys(lines)) + [md.media]
    decreases |lines|, 0
  {
    if |lines| == 0 {
      MediaNamesAppend(sd.media, md);
      assert (sd.media + [md])[..|sd.media|] == sd.media;
    } else {
      var step := MediaLine(md, lines[0]);
      var rest := lines[1..];
      if step.Ok? {
        match step.value
        case Continue(md') =>
          assert MediaKeys(lines) == MediaKeys(rest);
          MediaLinesOrder(sd, md', rest);
        case Nested(medialine) =>
          assert MediaKeys(lines) == [MediaName(medialine)] + MediaKeys(rest);
          NestedOrder(sd, md, medialine, rest);
      }
    }
  }

  /** A nested section's result with the enclosing section added last. */
  lemma {:induction false} NestedOrder(sd: SessionDescription, md: MediaDescription, medialine: string, rest: seq<string>)
    ensures var r := ParseMediaSection(sd, medialine, rest);
            r.Ok? ==> var media := r.value.media + [md];
                      && r.value.(media := media) == sd.(media := media)
                      && |media| > |sd.media| && media[..|sd.media|] == sd.media
                      && MediaNames(media) == MediaNames(sd.media) + Reverse([MediaName(medialine)] + MediaKeys(rest)) + [md.media]
    decreases |rest|, 2
  {
    var sd' := ParseMediaSection(sd, medialine, rest);
    if sd'.Ok? {
      MediaSectionOrder(sd, medialine, rest);
      var media := sd'.value.media;
      MediaNamesAppend(media, md);
      assert (media + [md])[..|sd.media|] == media[..|sd.media|];
    }
  }

  /** The session lines before the first m= line leave the sections alone;
      after it, every section is added in reverse order of appearance. */
  lemma {:induction false} SessionMediaOrder(sd: SessionDescription, lines: seq<string>)
    ensures var r := ParseSession(sd, lines);
            r.Ok? ==> && |r.value.media| >= |sd.media| && r.value.media[..|sd.media|] == sd.media
                      && MediaNames(r.value.media) == MediaNames(sd.media) + Reverse(MediaKeys(lines))
    decreases |lines|
  {
    if |lines| > 0 {
      var step := SessionLine(sd, lines[0]);
      if step.Ok? {
        match step.value
        case Next(sd') =>
          assert MediaKeys(lines) == MediaKeys(lines[1..]);
          SessionMediaOrder(sd', lines[1..]);
        case OpenMedia(medialine) =>
          assert MediaKeys(lines) == [MediaName(medialine)] + MediaKeys(lines[1..]);
          MediaSectionOrder(sd, medialine, lines[1..]);
      }
    }
  }

  lemma EmptySessionMediaOrder(sd: SessionDescription, lines: seq<string>)
    requires sd.media == []
    ensures var r := ParseSession(sd, lines);
            r.Ok? ==> MediaNames(r.value.media) == Reverse(MediaKeys(lines))
  {
    SessionMediaOrder(sd, lines);
    assert MediaNames(sd.media) == [];
    assert MediaNames(sd.media) + Reverse(MediaKeys(lines)) == Reverse(MediaKeys(lines));
  }

  /** The sections of a parsed description are the m= lines of the text
      in reverse order. */
  lemma ParseMediaOrder(sdp: string)
    ensures Parse(sdp).Ok? ==> MediaNames(Parse(sdp).value.media) == Reverse(MediaKeys(Lines(sdp)))
  {
    EmptySessionMediaOrder(NewSessionDescription, Lines(sdp));
  }

  /** A line whose key no part of the parser reads. */
  predicate Unknown(line: string)
  {
    var l := ParseSdpLine(line);
    l.Ok? && l.value.key !in {"v", "o", "s", "t", "m", "a", "c"}
  }

  lemma UnknownSessionLine(sd: SessionDescription, line: string)
    requires Unknown(line)
    ensures SessionLine(sd, line) == Ok(Next(sd))
  {
  }

  lemma UnknownMediaLine(md: MediaDescription, line: string)
    requires Unknown(line)
    ensures MediaLine(md, line) == Ok(Continue(md))
  {
  }

  /** A line with an unknown key, wherever it stands, changes nothing:
      neither the result nor whether parsing fails. */
  lemma {:induction false} SessionSkipsUnknown(sd: SessionDescription, pre: seq<string>, x: string, post: seq<string>)
    requires Unknown(x)
    ensures ParseSession(sd, pre + [x] + post) == ParseSession(sd, pre + post)
    decreases |pre|, 2
  {
    var lines := pre + [x] + post;
    if |pre| == 0 {
      UnknownSessionLine(sd, x);
      assert lines[0] == x && lines[1..] == post == pre + post;
    } else {
      assert lines[0] == (pre + post)[0] == pre[0];
      assert lines[1..] == pre[1..] + [x] + post && (pre + post)[1..] == pre[1..] + post;
      var step := SessionLine(sd, pre[0]);
      if step.Ok? {
        match step.value
        case Next(sd') => SessionSkipsUnknown(sd', pre[1..], x, post);
        case OpenMedia(medialine) => SectionSkipsUnknown(sd, medialine, pre[1..], x, post);
      }
    }
  }

  lemma {:induction false} SectionSkipsUnknown(sd: SessionDescription, medialine: string, pre: seq<string>, x: string, post: seq<string>)
    requires Unknown(x)
    ensures ParseMediaSection(sd, medialine, pre + [x] + post) == ParseMediaSection(sd, medialine, pre + post)
    decreases |pre|, 1
  {
    var md := ParseMediaLine(medialine);
    if md.Ok? {
      LinesSkipUnknown(sd, md.value, pre, x, post);
    }
  }

  lemma {:induction false} LinesSkipUnknown(sd: SessionDescription, md: MediaDescription, pre: seq<string>, x: string, post: seq<string>)
    requires Unknown(x)
    ensures ParseMediaLines(sd, md, pre + [x] + post) == ParseMediaLines(sd, md, pre + post)
    decreases |pre|, 0
  {
    var lines := pre + [x] + post;
    if |pre| == 0 {
      UnknownMediaLine(md, x);
      assert lines[0] == x && lines[1..] == post == pre + post;
    } else {
      assert lines[0] == (pre + post)[0] == pre[0];
      assert lines[1..] == pre[1..] + [x] + post && (pre + post)[1..] == pre[1..] + post;
      var step := MediaLine(md, pre[0]);
      if step.Ok? {
        match step.value
        case Continue(md') => LinesSkipUnknown(sd, md', pre[1..], x, post);
        case Nested(medialine) => SectionSkipsUnknown(sd, medialine, pre[1..], x, post);
      }
    }
  }

  /** The attribute the session builder writes for the stream id parses,
      as written, to the id with "WMS " still in front: the start index
      skips only the space before "WMS". */
  lemma MsidSemanticAsWritten(sd: SessionDescription, id: string)
    ensures ParseSessionAttribute(sd, AttributeText("msid-semantic", Wms + id)) == sd.(webRtcMediaStreamId := Some("WMS " + id))
  {
    MsidSemanticDispatch(sd, Wms + id);
    WmsFirst(id);
  }

  /** An msid-semantic attribute keeps what follows the first character of
      " WMS " on. */
  lemma MsidSemanticDispatch(sd: SessionDescription, value: string)
    ensures var i := IndexOfString(value, Wms);
            ParseSessionAttribute(sd, AttributeText("msid-semantic", value))
            == sd.(webRtcMediaStreamId := Some(value[i + 1..]))
  {
    ParseAttributeText("msid-semantic", value);
    assert "msid-semantic" != "bundle";
  }

  /** The builder's value opens with the pattern. */
  lemma WmsFirst(id: string)
    ensures IndexOfString(Wms + id, Wms) == 0
    ensures (Wms + id)[1..] == "WMS " + id
  {
    assert (Wms + id)[..|Wms|] == Wms;
  }

  /** The stream id after " WMS " (the whole value when that is absent):
      the reading the attribute's format calls for. */
  function MsidStreamId(value: string): (r: string)
    ensures IndexOfString(value, Wms) < 0 ==> r == value
    ensures IndexOfString(value, Wms) >= 0 ==> exists pre :: pre + Wms + r == value && IndexOfString(pre, Wms) < 0
  {
    var i := IndexOfString(value, Wms);
    if i < 0 then value
    else
      assert value[..i] + Wms + value[i + |Wms|..] == value;
      assert IndexOfString(value[..i], Wms) < 0 by {
        assert forall j | 0 <= j <= i :: OccursAt(value[..i], Wms, j) ==> OccursAt(value, Wms, j);
      }
      value[i + |Wms|..]
  }

  /** Reading back the builder's " WMS <id>" gives the id. */
  lemma MsidStreamIdRoundTrip(id: string)
    ensures MsidStreamId(Wms + id) == id
  {
    assert (Wms + id)[..|Wms|] == Wms;
  }

  /** The attribute that carries the bundle: "group" with a value that
      starts "BUNDLE ". */
  const BundleGroup: string := "BUNDLE "

  /** `ParseSessionAttribute` as the builder's output calls for: the bundle
      from `group:BUNDLE <ids>` and the stream id after " WMS ". */
  function ParseSessionAttributeCorrected(sd: SessionDescription, attribute: string): (r: SessionDescription)
    ensures r.origin == sd.origin && r.media == sd.media && r.version == sd.version
  {
    var a := ParseAttributeKeyValue(attribute);
    if a.key == "group" && a.value.Some? && |a.value.value| >= |BundleGroup| && a.value.value[..|BundleGroup|] == BundleGroup then
      sd.(bundles := Some(Split(a.value.value[|BundleGroup|..], ' ')))
    else if a.key == "msid-semantic" && a.value.Some? then
      sd.(webRtcMediaStreamId := Some(MsidStreamId(a.value.value)))
    else sd
  }

  /** The bundle line the session builder writes is lost as written: its
      key is "group", not "bundle". */
  lemma GroupBundleIgnored(sd: SessionDescription, ids: string)
    ensures ParseSessionAttribute(sd, AttributeText("group", BundleGroup + ids)) == sd
  {
    ParseAttributeText("group", BundleGroup + ids);
  }

  /** The corrected reading recovers a non-empty list of space-free media
      ids from the builder's bundle line. */
  lemma GroupBundleCorrected(sd: SessionDescription, ids: seq<string>)
    requires |ids| >= 1 && forall k | 0 <= k < |ids| :: ' ' !in ids[k]
    ensures ParseSessionAttributeCorrected(sd, AttributeText("group", BundleGroup + Join(ids, " "))) == sd.(bundles := Some(ids))
  {
    var value := BundleGroup + Join(ids, " ");
    ParseAttributeText("group", value);
    assert value[..|BundleGroup|] == BundleGroup && value[|BundleGroup|..] == Join(ids, " ");
    JoinSplit(ids, ' ');
  }

  /** The corrected reading recovers the stream id. */
  lemma MsidSemanticCorrected(sd: SessionDescription, id: string)
    ensures ParseSessionAttributeCorrected(sd, AttributeText("msid-semantic", Wms + id)) == sd.(webRtcMediaStreamId := Some(id))
  {
    ParseAttributeText("msid-semantic", Wms + id);
    MsidStreamIdRoundTrip(id);
  }

  /** Two space-separated fields free of spaces. */
  lemma TwoFields(a: string, b: string)
    requires ' ' !in a && ' ' !in b
    ensures Split(a + " " + b, ' ') == [a, b]
  {
    SplitCons(a, ' ', b);
    assert Split(b, ' ') == [b];
  }

  /** Two fields free of spaces, then the rest of the text. */
  lemma SpaceFields(a: string, b: string, rest: string)
    requires ' ' !in a && ' ' !in b
    ensures Split(a + " " + b + " " + rest, ' ') == [a, b] + Split(rest, ' ')
  {
    var tail := b + " " + rest;
    Assoc4(a, " ", b + " ", rest);
    assert a + " " + b + " " + rest == a + [' '] + tail;
    SplitCons(a, ' ', tail);
    SplitCons(b, ' ', rest);
  }

  /** The fields of an ssrc attribute the builder writes. */
  lemma SsrcFields(ssrc: uint32, field: string, rest: string)
    requires ' ' !in field
    ensures Split(ToDecimal(ssrc) + " " + field, ' ') == [ToDecimal(ssrc), field]
    ensures Split(ToDecimal(ssrc) + " " + field + " " + rest, ' ') == [ToDecimal(ssrc), field] + Split(rest, ' ')
    ensures ParseUInt32(Some(ToDecimal(ssrc))) == Ok(ssrc)
  {
    var d := ToDecimal(ssrc);
    assert ' ' !in d by {
      DecimalCharacters(ssrc);
    }
    TwoFields(d, field);
    SpaceFields(d, field, rest);
    DecimalRoundTrip(ssrc, 0, 0xFFFF_FFFF);
  }

  /** The fields of "<ssrc> <field>", ending in no further fields. */
  lemma SsrcTwoFields(ssrc: uint32, field: string)
    requires ' ' !in field
    ensures Split(ToDecimal(ssrc) + " " + field, ' ') == [ToDecimal(ssrc), field] + []
    ensures ParseUInt32(Some(ToDecimal(ssrc))) == Ok(ssrc)
  {
    SsrcFields(ssrc, field, "");
    assert [ToDecimal(ssrc), field] + [] == [ToDecimal(ssrc), field];
  }

  /** The fields of "<ssrc> <field> <rest>" for a space-free `rest`. */
  lemma SsrcThreeFields(ssrc: uint32, field: string, rest: string)
    requires ' ' !in field && ' ' !in rest
    ensures Split(ToDecimal(ssrc) + " " + field + " " + rest, ' ') == [ToDecimal(ssrc), field] + [rest]
    ensures ParseUInt32(Some(ToDecimal(ssrc))) == Ok(ssrc)
  {
    SsrcFields(ssrc, field, rest);
    assert Split(rest, ' ') == [rest];
  }

  /** An ssrc attribute, as written, by its fields. */
  lemma SsrcAsWrittenFields(md: MediaDescription, value: string, ssrc: uint32, field: string)
    requires |Split(value, ' ')| >= 2 && Split(value, ' ')[..2] == [ToDecimal(ssrc), field]
    requires ParseUInt32(Some(ToDecimal(ssrc))) == Ok(ssrc)
    requires field != "cname" && field != "msid"
    ensures ParseSsrcAttribute(md, value) == Ok(md.(source := md.source.(ssrc := ssrc)))
  {
    var parts := Split(value, ' ');
    assert parts[0] == ToDecimal(ssrc) && parts[1] == field;
    assert TryGet(parts, 0) == Some(ToDecimal(ssrc));
    assert TryGet(parts, 1) == Some(field) && Some(field) != Some("cname") && Some(field) != Some("msid");
  }

  /** The builder's cname line keeps only the SSRC as written: the field
      "cname:<name>" is not the bare token "cname". */
  lemma SsrcCNameLost(md: MediaDescription, ssrc: uint32, cname: string)
    requires ' ' !in cname
    ensures ParseSsrcAttribute(md, ToDecimal(ssrc) + " " + AttributeText("cname", cname))
            == Ok(md.(source := md.source.(ssrc := ssrc)))
  {
    var field := AttributeText("cname", cname);
    SsrcFields(ssrc, field, "");
    assert |field| != |"cname"| && |field| != |"msid"|;
    SsrcAsWrittenFields(md, ToDecimal(ssrc) + " " + field, ssrc, field);
  }

  /** Likewise for the msid line: the identifier and its application data
      are both lost. */
  lemma SsrcMsIdLost(md: MediaDescription, ssrc: uint32, msid: string, appData: string)
    requires ' ' !in msid
    ensures ParseSsrcAttribute(md, ToDecimal(ssrc) + " " + AttributeText("msid", msid) + " " + appData)
            == Ok(md.(source := md.source.(ssrc := ssrc)))
  {
    var field := AttributeText("msid", msid);
    SsrcFields(ssrc, field, appData);
    assert field != "cname" by {
      assert field[0] == 'm';
    }
    assert |field| != |"msid"|;
    SsrcAsWrittenFields(md, ToDecimal(ssrc) + " " + field + " " + appData, ssrc, field);
  }

  /** `ParseSsrcAttribute` as the attribute's format calls for (section
      4.1 of RFC 5576): the second field is `<attribute>:<value>`. */
  function ParseSsrcAttributeCorrected(md: MediaDescription, value: string): (r: Result<MediaDescription>)
    ensures r.Ok? ==> r.value == md.(source := r.value.source)
    ensures r.Ok? ==> ParseUInt32(TryGet(Split(value, ' '), 0)) == Ok(r.value.source.ssrc)
  {
    var parts := Split(value, ' ');
    var ssrc :- ParseUInt32(TryGet(parts, 0));
    var source := md.source.(ssrc := ssrc);
    var param := if |parts| > 1 then ParseAttributeKeyValue(parts[1]) else Attribute("", None);
    if param.key == "cname" && param.value.Some? then Ok(md.(source := source.(cname := param.value)))
    else if param.key == "msid" && param.value.Some? then
      Ok(md.(source := source.(msId := param.value, msIdAppData := TryGet(parts, 2))))
    else Ok(md.(source := source))
  }

  /** An ssrc attribute, read the corrected way, by its fields. */
  lemma SsrcCorrectedFields(md: MediaDescription, value: string, ssrc: uint32, key: string, v: string, rest: seq<string>)
    requires Split(value, ' ') == [ToDecimal(ssrc), AttributeText(key, v)] + rest
    requires ParseUInt32(Some(ToDecimal(ssrc))) == Ok(ssrc)
    requires ParseAttributeKeyValue(AttributeText(key, v)) == Attribute(key, Some(v))
    ensures key == "cname" ==> ParseSsrcAttributeCorrected(md, value) == Ok(md.(source := md.source.(ssrc := ssrc, cname := Some(v))))
    ensures key == "msid" ==> ParseSsrcAttributeCorrected(md, value)
                              == Ok(md.(source := md.source.(ssrc := ssrc, msId := Some(v), msIdAppData := TryGet(rest, 0))))
  {
    var parts := Split(value, ' ');
    assert parts[0] == ToDecimal(ssrc) && parts[1] == AttributeText(key, v);
    assert TryGet(parts, 2) == TryGet(rest, 0);
  }

  /** The corrected reading recovers the canonical name. */
  lemma SsrcCNameCorrected(md: MediaDescription, ssrc: uint32, cname: string)
    requires ' ' !in cname
    ensures ParseSsrcAttributeCorrected(md, ToDecimal(ssrc) + " " + AttributeText("cname", cname))
            == Ok(md.(source := md.source.(ssrc := ssrc, cname := Some(cname))))
  {
    var field := AttributeText("cname", cname);
    SsrcTwoFields(ssrc, field);
    ParseAttributeText("cname", cname);
    SsrcCorrectedFields(md, ToDecimal(ssrc) + " " + field, ssrc, "cname", cname, []);
  }

  /** The corrected reading recovers the stream identifier and its
      application data. */
  lemma SsrcMsIdCorrected(md: MediaDescription, ssrc: uint32, msid: string, appData: string)
    requires ' ' !in msid && ' ' !in appData
    ensures ParseSsrcAttributeCorrected(md, ToDecimal(ssrc) + " " + AttributeText("msid", msid) + " " + appData)
            == Ok(md.(source := md.source.(ssrc := ssrc, msId := Some(msid), msIdAppData := Some(appData))))
  {
    var field := AttributeText("msid", msid);
    SsrcThreeFields(ssrc, field, appData);
    ParseAttributeText("msid", msid);
    SsrcCorrectedFields(md, ToDecimal(ssrc) + " " + field + " " + appData, ssrc, "msid", msid, [appData]);
  }
}
