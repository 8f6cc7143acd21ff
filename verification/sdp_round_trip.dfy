/** `SdpRoundTrip`: what `SdpParser` recovers from the text the two
    builders write. A media section comes back with its text fields as
    non-null strings, RTCP multiplexing on whatever was set, and only the
    SSRC of its source; a session comes back with version 0, no bundle
    list, "WMS " still in front of its stream id, and its sections in
    reverse order. Text fields are taken free of line breaks, and those the
    parser splits on spaces or slashes free of those. */
module SdpRoundTrip {
  import opened Results
  import opened Bytes
  import opened Text
  import opened SdpModel
  import opened SdpParser
  import SRM = SendReceiveMode
  import MB = SdpMediaBuilder
  import SB = SdpBuilder

  /** Text free of line breaks, as every written line must be. */
  predicate Plain(s: string)
  {
    '\r' !in s && '\n' !in s
  }

  /** A field the parser splits out of a space-separated list. */
  predicate Token(s: string)
  {
    Plain(s) && ' ' !in s
  }

  /** A printed integer is a token free of '/' too. */
  lemma DecimalToken(n: int)
    ensures Token(ToDecimal(n)) && '/' !in ToDecimal(n) && ToDecimal(n) != "*"
  {
    DecimalCharacters(n);
    var d := ToDecimal(n);
    assert forall c | c in d :: IsDigit(c) || c == '-';
    assert '*' !in d;
  }

  /** A token read back by the integer parser of its range. */
  lemma DecimalField(n: int, lo: int, hi: int)
    requires lo <= n <= hi
    ensures ParseInteger(Some(ToDecimal(n)), lo, hi) == Ok(n) && Token(ToDecimal(n))
  {
    DecimalRoundTrip(n, lo, hi);
    DecimalToken(n);
  }

  /** `<a> <b>` with a space-free `a` splits at that space. */
  lemma SplitPayloadTypeOf(a: string, b: string)
    requires ' ' !in a
    ensures SplitPayloadType(a + " " + b) == Ok((a, b))
  {
    var v := a + " " + b;
    IndexOfPrefix(a, ' ', b);
    assert v[..|a|] == a && v[|a| + 1..] == b;
  }

  /** The attribute names of equal length that the parser tells apart. */
  lemma KeysDistinct()
    ensures "control" != "ice-pwd" && "control" != "rtcp-fb" && "ice-pwd" != "rtcp-fb"
    ensures "framerate" != "ice-ufrag" && "framerate" != "candidate" && "ice-ufrag" != "candidate"
    ensures "ice-options" != "fingerprint" && "fmtp" != "ssrc"
  {
    assert "control"[0] != "ice-pwd"[0] && "control"[0] != "rtcp-fb"[0] && "ice-pwd"[0] != "rtcp-fb"[0];
    assert "framerate"[0] != "ice-ufrag"[0] && "framerate"[0] != "candidate"[0] && "ice-ufrag"[0] != "candidate"[0];
    assert "ice-options"[0] != "fingerprint"[0] && "fmtp"[0] != "ssrc"[0];
  }

  // ---- Folding the lines of one section ----

  /** The lines of a section applied to a media description in turn:
      `None` once a line fails or opens a nested section. */
  function ApplyLines(md: MediaDescription, lines: seq<string>): Option<MediaDescription>
    decreases |lines|
  {
    if |lines| == 0 then Some(md)
    else
      var step := MediaLine(md, lines[0]);
      if step.Ok? && step.value.Continue? then ApplyLines(step.value.md, lines[1..]) else None
  }

  lemma {:induction false} ApplyLinesAppend(md: MediaDescription, a: seq<string>, b: seq<string>)
    requires ApplyLines(md, a).Some?
    ensures ApplyLines(md, a + b) == ApplyLines(ApplyLines(md, a).value, b)
    decreases |a|
  {
    if |a| > 0 {
      assert (a + b)[0] == a[0] && (a + b)[1..] == a[1..] + b;
      ApplyLinesAppend(MediaLine(md, a[0]).value.md, a[1..], b);
    } else {
      assert a + b == b;
    }
  }

  /** Lines that fold without failing or nesting leave the section loop
      where the fold ends. */
  lemma {:induction false} ParseAppliedLines(sd: SessionDescription, md: MediaDescription, body: seq<string>, rest: seq<string>)
    requires ApplyLines(md, body).Some?
    ensures ParseMediaLines(sd, md, body + rest) == ParseMediaLines(sd, ApplyLines(md, body).value, rest)
    decreases |body|
  {
    if |body| > 0 {
      var lines := body + rest;
      assert lines[0] == body[0] && lines[1..] == body[1..] + rest;
      var step := MediaLine(md, body[0]);
      assert step.Ok? && step.value.Continue?;
      ParseAppliedLines(sd, step.value.md, body[1..], rest);
      assert ParseMediaLines(sd, md, lines) == ParseMediaLines(sd, step.value.md, lines[1..]);
    } else {
      assert body + rest == rest;
    }
  }

  lemma ApplyCons(md: MediaDescription, line: string, md': MediaDescription, rest: seq<string>)
    requires MediaLine(md, line) == Ok(Continue(md'))
    ensures ApplyLines(md, [line] + rest) == ApplyLines(md', rest)
  {
    assert ([line] + rest)[0] == line && ([line] + rest)[1..] == rest;
  }

  /** An a= line whose attribute parses to `md'`. */
  lemma AttributeLine(md: MediaDescription, text: string, md': MediaDescription, rest: seq<string>)
    requires ParseMediaDescriptionAttribute(md, text) == Ok(md')
    ensures ApplyLines(md, [LineText("a", text)] + rest) == ApplyLines(md', rest)
  {
    ParseLineText("a", text);
    ApplyCons(md, LineText("a", text), md', rest);
  }

  // ---- The lines before the formats ----

  /** The connection a c= line of three tokens is read back as. */
  function RecoveredConnection(c: Connection): Connection
  {
    Connection(Some(Str(c.netType)), Some(Str(c.addrType)), Some(Str(c.address)))
  }

  lemma ConnectionFields(c: Connection)
    requires ' ' !in Str(c.netType) && ' ' !in Str(c.addrType) && ' ' !in Str(c.address)
    ensures ParseConnectionLine(MB.ConnectionValue(c)) == RecoveredConnection(c)
  {
    SpaceFields(Str(c.netType), Str(c.addrType), Str(c.address));
    assert Split(Str(c.address), ' ') == [Str(c.address)];
  }

  lemma ConnectionLine(md: MediaDescription, c: Connection, rest: seq<string>)
    requires ' ' !in Str(c.netType) && ' ' !in Str(c.addrType) && ' ' !in Str(c.address)
    ensures ApplyLines(md, [LineText("c", MB.ConnectionValue(c))] + rest)
            == ApplyLines(md.(connection := Some(RecoveredConnection(c))), rest)
  {
    var v := MB.ConnectionValue(c);
    ParseLineText("c", v);
    assert MediaLine(md, LineText("c", v)) == Ok(Continue(md.(connection := Some(ParseConnectionLine(v)))));
    ConnectionFields(c);
    ApplyCons(md, LineText("c", v), md.(connection := Some(RecoveredConnection(c))), rest);
  }

  /** The mode a direction line is read back as: a mode without a name is
      written as an empty attribute, which changes nothing. */
  lemma ModeLine(md: MediaDescription, m: SRM.Mode)
    ensures ParseMediaDescriptionAttribute(md, Str(SRM.ToSdpValue(m))) == Ok(md.(mode := if SRM.Named(m) then m else md.mode))
  {
    if SRM.Named(m) {
      DirectionAttribute(md, m);
    } else {
      assert Str(SRM.ToSdpValue(m)) == "";
    }
  }

  lemma MidLine(md: MediaDescription, v: string)
    ensures ParseMediaDescriptionAttribute(md, AttributeText("mid", v)) == Ok(md.(mediaId := Some(v)))
  {
    ParseAttributeText("mid", v);
  }

  lemma IceUfragLine(md: MediaDescription, v: string)
    ensures ParseMediaDescriptionAttribute(md, AttributeText("ice-ufrag", v)) == Ok(md.(ice := md.ice.(usernameFragment := Some(v))))
  {
    ParseAttributeText("ice-ufrag", v);
  }

  lemma IcePwdLine(md: MediaDescription, v: string)
    ensures ParseMediaDescriptionAttribute(md, AttributeText("ice-pwd", v)) == Ok(md.(ice := md.ice.(password := Some(v))))
  {
    ParseAttributeText("ice-pwd", v);
  }

  lemma IceOptionsLine(md: MediaDescription, v: string)
    ensures ParseMediaDescriptionAttribute(md, AttributeText("ice-options", v)) == Ok(md.(ice := md.ice.(options := Some(v))))
  {
    ParseAttributeText("ice-options", v);
  }

  lemma FingerprintDispatch(x: MediaDescription, attribute: string, v: string)
    requires ParseAttributeKeyValue(attribute) == Attribute("fingerprint", Some(v))
    ensures var parts := Split(v, ' ');
            ParseMediaDescriptionAttribute(x, attribute)
            == Ok(x.(dtls := x.dtls.(hashFunc := TryGet(parts, 0), fingerprint := TryGet(parts, 1))))
  {
    var key := "fingerprint";
    assert ModeOf(key) == None;
    assert key != "control" && key != "framerate" && key != "mid" && key != "ice-ufrag";
    assert key != "ice-pwd" && key != "ice-options";
  }

  lemma FingerprintLine(md: MediaDescription, hash: string, fp: string)
    requires ' ' !in hash && ' ' !in fp
    ensures ParseMediaDescriptionAttribute(md, AttributeText("fingerprint", hash + " " + fp))
            == Ok(md.(dtls := md.dtls.(hashFunc := Some(hash), fingerprint := Some(fp))))
  {
    ParseAttributeText("fingerprint", hash + " " + fp);
    FingerprintDispatch(md, AttributeText("fingerprint", hash + " " + fp), hash + " " + fp);
    TwoFields(hash, fp);
  }

  lemma SetupLine(md: MediaDescription, v: string)
    ensures ParseMediaDescriptionAttribute(md, AttributeText("setup", v)) == Ok(md.(dtls := md.dtls.(setup := Some(v))))
  {
    ParseAttributeText("setup", v);
  }

  /** The flags the parser has no case for: written, and read back as
      nothing. */
  lemma RtcpMuxLine(md: MediaDescription)
    ensures ParseMediaDescriptionAttribute(md, MB.RtcpMux) == Ok(md)
  {
    var flag := MB.RtcpMux;
    assert |flag| == 8 && flag[0] == 'r' && flag[1] == 't' && ':' !in flag;
    assert ModeOf(flag) == None;
    UnknownAttribute(md, flag);
  }

  lemma EndOfCandidatesLine(md: MediaDescription)
    ensures ParseMediaDescriptionAttribute(md, MB.EndOfCandidates) == Ok(md)
  {
    var flag := MB.EndOfCandidates;
    assert |flag| == 17 && ':' !in flag;
    UnknownAttribute(md, flag);
  }

  /** An attribute without a value whose name the parser has no case for. */
  lemma UnknownAttribute(md: MediaDescription, flag: string)
    requires ':' !in flag && ModeOf(flag) == None
    requires |flag| !in {3, 4, 5, 6, 7, 9, 11}
    ensures ParseMediaDescriptionAttribute(md, flag) == Ok(md)
  {
    assert ParseAttributeKeyValue(flag) == Attribute(flag, None);
  }

  /** The section after its c= line and the attributes before the
      formats: every text field comes back non-null, and the mode changes
      only when it has a name. */
  function AfterHead(x: MediaDescription, md: MediaDescription): MediaDescription
    requires md.connection.Some?
  {
    x.(connection := Some(RecoveredConnection(md.connection.value)),
       mode := if SRM.Named(md.mode) then md.mode else x.mode,
       mediaId := Some(Str(md.mediaId)),
       ice := IceAttributes(Some(Str(md.ice.usernameFragment)), Some(Str(md.ice.password)), Some(Str(md.ice.options))),
       dtls := DtlsAttributes(Some(Str(md.dtls.setup)), Some(Str(md.dtls.hashFunc)), Some(Str(md.dtls.fingerprint))))
  }

  /** The fields of the head lines the parser splits on spaces. */
  predicate HeadTokens(md: MediaDescription)
  {
    && md.connection.Some?
    && ' ' !in Str(md.connection.value.netType) && ' ' !in Str(md.connection.value.addrType)
    && ' ' !in Str(md.connection.value.address)
    && ' ' !in Str(md.dtls.hashFunc) && ' ' !in Str(md.dtls.fingerprint)
  }

  lemma HeadLines(x: MediaDescription, md: MediaDescription, rest: seq<string>)
    requires HeadTokens(md)
    ensures ApplyLines(x, [LineText("c", MB.ConnectionValue(md.connection.value))] + MB.HeadAttributeLines(md) + rest)
            == ApplyLines(AfterHead(x, md), rest)
  {
    var c := md.connection.value;
    var cl := LineText("c", MB.ConnectionValue(c));
    var t1, t2 := MB.ModeAttribute(md), AttributeText("mid", Str(md.mediaId));
    var t3, t4 := AttributeText("ice-ufrag", Str(md.ice.usernameFragment)), AttributeText("ice-pwd", Str(md.ice.password));
    var t5 := AttributeText("ice-options", Str(md.ice.options));
    var t6 := AttributeText("fingerprint", Str(md.dtls.hashFunc) + " " + Str(md.dtls.fingerprint));
    var t7 := AttributeText("setup", Str(md.dtls.setup));
    var mux := MB.RtcpMuxLines(md);
    var r7 := [LineText("a", t7)] + rest;
    var r6 := [LineText("a", t6)] + r7;
    var r5 := [LineText("a", t5)] + r6;
    var r4 := [LineText("a", t4)] + r5;
    var r3 := [LineText("a", t3)] + r4;
    var rm := mux + r3;
    var r2 := [LineText("a", t2)] + rm;
    var r1 := [LineText("a", t1)] + r2;
    assert [cl] + MB.HeadAttributeLines(md) + rest == [cl] + r1;
    var y0 := x.(connection := Some(RecoveredConnection(c)));
    ConnectionLine(x, c, r1);
    var y1 := y0.(mode := if SRM.Named(md.mode) then md.mode else y0.mode);
    ModeLine(y0, md.mode);
    AttributeLine(y0, t1, y1, r2);
    var y2 := y1.(mediaId := Some(Str(md.mediaId)));
    MidLine(y1, Str(md.mediaId));
    AttributeLine(y1, t2, y2, rm);
    if md.supportsRtcpMultiplexing {
      RtcpMuxLine(y2);
      AttributeLine(y2, MB.RtcpMux, y2, r3);
    } else {
      assert rm == r3;
    }
    var y3 := y2.(ice := y2.ice.(usernameFragment := Some(Str(md.ice.usernameFragment))));
    IceUfragLine(y2, Str(md.ice.usernameFragment));
    AttributeLine(y2, t3, y3, r4);
    var y4 := y3.(ice := y3.ice.(password := Some(Str(md.ice.password))));
    IcePwdLine(y3, Str(md.ice.password));
    AttributeLine(y3, t4, y4, r5);
    var y5 := y4.(ice := y4.ice.(options := Some(Str(md.ice.options))));
    IceOptionsLine(y4, Str(md.ice.options));
    AttributeLine(y4, t5, y5, r6);
    var y6 := y5.(dtls := y5.dtls.(hashFunc := Some(Str(md.dtls.hashFunc)), fingerprint := Some(Str(md.dtls.fingerprint))));
    FingerprintLine(y5, Str(md.dtls.hashFunc), Str(md.dtls.fingerprint));
    AttributeLine(y5, t6, y6, r7);
    var y7 := y6.(dtls := y6.dtls.(setup := Some(Str(md.dtls.setup))));
    SetupLine(y6, Str(md.dtls.setup));
    AttributeLine(y6, t7, y7, rest);
    assert y7 == AfterHead(x, md);
  }

  // ---- The format blocks ----

  /** A format as its block of lines reads back: the encoding name and the
      feedback list non-null, the list empty when there was none. */
  function RecoveredFormat(f: MediaFormat): MediaFormat
  {
    MediaFormat(f.payloadType, Some(Str(f.encodingName)), f.clockRate, f.encodingParameters, f.formatParameters,
                Some(if f.rtcpFeedback.Some? then f.rtcpFeedback.value else []))
  }

  /** The formats of a list with the first `j` read back from their
      blocks and the rest as the m= line creates them. */
  function PartlyRecovered(fs: seq<MediaFormat>, j: nat): (r: seq<MediaFormat>)
    ensures |r| == |fs| && PayloadTypes(r) == PayloadTypes(fs)
  {
    seq(|fs|, k requires 0 <= k < |fs| => if k < j then RecoveredFormat(fs[k]) else NewMediaFormat(fs[k].payloadType))
  }

  /** A format whose block reads back: no line breaks, and no '/' inside
      the fields of its rtpmap encoding. */
  predicate PrintableFormat(f: MediaFormat)
  {
    && Plain(Str(f.encodingName)) && '/' !in Str(f.encodingName)
    && (f.encodingParameters.Some? ==> Plain(f.encodingParameters.value) && '/' !in f.encodingParameters.value)
    && (f.formatParameters.Some? ==> Plain(f.formatParameters.value))
    && (f.rtcpFeedback.Some? ==> forall k | 0 <= k < |f.rtcpFeedback.value| :: Plain(f.rtcpFeedback.value[k]))
  }

  /** The dictionary lookup of a key at a known place. */
  lemma FormatIndexAt(formats: seq<MediaFormat>, k: nat, pt: int)
    requires DistinctKeys(formats) && k < |formats| && formats[k].payloadType == pt
    ensures FormatIndex(formats, pt) == k
  {
  }

  lemma DistinctKeysUpdate(formats: seq<MediaFormat>, k: nat, f: MediaFormat)
    requires DistinctKeys(formats) && k < |formats| && formats[k].payloadType == f.payloadType
    ensures DistinctKeys(formats[k := f])
  {
    assert forall i | 0 <= i < |formats| :: formats[k := f][i].payloadType == formats[i].payloadType;
  }

  /** The encoding of an rtpmap value splits back into its fields. */
  lemma EncodingFieldsSplit(f: MediaFormat)
    requires PrintableFormat(f)
    ensures var fields := MB.EncodingFields(f);
            && Split(Join(fields, "/"), '/') == fields
            && TryGet(fields, 0) == Some(Str(f.encodingName))
            && TryParseInt32(TryGet(fields, 1)) == Some(f.clockRate as int)
            && TryGet(fields, 2) == f.encodingParameters
  {
    var fields := MB.EncodingFields(f);
    DecimalField(f.clockRate, -0x8000_0000, 0x7FFF_FFFF);
    DecimalToken(f.clockRate);
    JoinSplit(fields, '/');
  }

  lemma RtpMapValueParse(x: MediaDescription, k: nat, f: MediaFormat)
    requires DistinctKeys(x.formats) && k < |x.formats| && x.formats[k].payloadType == f.payloadType
    requires PrintableFormat(f)
    ensures ParseRtpMapAttribute(x, MB.RtpMapValue(f))
            == Ok(x.(formats := x.formats[k := x.formats[k].(encodingName := Some(Str(f.encodingName)), clockRate := f.clockRate,
                                                             encodingParameters := f.encodingParameters)]))
  {
    var d, enc := ToDecimal(f.payloadType), Join(MB.EncodingFields(f), "/");
    DecimalField(f.payloadType, -0x8000_0000, 0x7FFF_FFFF);
    SplitPayloadTypeOf(d, enc);
    assert ParseInt32(Some(d)) == Ok(f.payloadType);
    EncodingFieldsSplit(f);
    FormatIndexAt(x.formats, k, f.payloadType);
  }

  lemma RtpMapDispatch(x: MediaDescription, attribute: string, v: string)
    requires ParseAttributeKeyValue(attribute) == Attribute("rtpmap", Some(v))
    ensures ParseMediaDescriptionAttribute(x, attribute) == ParseRtpMapAttribute(x, v)
  {
    var key := "rtpmap";
    assert ModeOf(key) == None;
    assert key != "control" && key != "framerate" && key != "mid" && key != "ice-ufrag";
    assert key != "ice-pwd" && key != "ice-options" && key != "fingerprint" && key != "setup";
  }

  lemma RtpMapLine(x: MediaDescription, k: nat, f: MediaFormat)
    requires DistinctKeys(x.formats) && k < |x.formats| && x.formats[k].payloadType == f.payloadType
    requires PrintableFormat(f)
    ensures ParseMediaDescriptionAttribute(x, AttributeText("rtpmap", MB.RtpMapValue(f)))
            == Ok(x.(formats := x.formats[k := x.formats[k].(encodingName := Some(Str(f.encodingName)), clockRate := f.clockRate,
                                                             encodingParameters := f.encodingParameters)]))
  {
    ParseAttributeText("rtpmap", MB.RtpMapValue(f));
    RtpMapDispatch(x, AttributeText("rtpmap", MB.RtpMapValue(f)), MB.RtpMapValue(f));
    RtpMapValueParse(x, k, f);
  }

  lemma FmtpDispatch(x: MediaDescription, attribute: string, v: string)
    requires ParseAttributeKeyValue(attribute) == Attribute("fmtp", Some(v))
    ensures ParseMediaDescriptionAttribute(x, attribute) == ParseFormatParametersAttribute(x, v)
  {
    var key := "fmtp";
    assert ModeOf(key) == None;
    assert key != "control" && key != "framerate" && key != "mid" && key != "ice-ufrag";
    assert key != "ice-pwd" && key != "ice-options" && key != "fingerprint" && key != "setup";
    assert key != "rtpmap";
  }

  lemma FmtpLine(x: MediaDescription, k: nat, pt: int32, parameters: string)
    requires DistinctKeys(x.formats) && k < |x.formats| && x.formats[k].payloadType == pt
    ensures ParseMediaDescriptionAttribute(x, AttributeText("fmtp", ToDecimal(pt) + " " + parameters))
            == Ok(x.(formats := x.formats[k := x.formats[k].(formatParameters := Some(parameters))]))
  {
    ParseAttributeText("fmtp", ToDecimal(pt) + " " + parameters);
    FmtpDispatch(x, AttributeText("fmtp", ToDecimal(pt) + " " + parameters), ToDecimal(pt) + " " + parameters);
    DecimalField(pt, -0x8000_0000, 0x7FFF_FFFF);
    SplitPayloadTypeOf(ToDecimal(pt), parameters);
    FormatIndexAt(x.formats, k, pt);
  }

  lemma FeedbackValueParse(x: MediaDescription, k: nat, pt: int32, cap: string)
    requires DistinctKeys(x.formats) && k < |x.formats| && x.formats[k].payloadType == pt
    requires x.formats[k].rtcpFeedback.Some?
    ensures ParseRtcpFeedbackCapabilityAttribute(x, ToDecimal(pt) + " " + cap)
            == Ok(x.(formats := x.formats[k := x.formats[k].(rtcpFeedback := Some(x.formats[k].rtcpFeedback.value + [cap]))]))
  {
    DecimalField(pt, -0x8000_0000, 0x7FFF_FFFF);
    DecimalToken(pt);
    SplitPayloadTypeOf(ToDecimal(pt), cap);
    assert ParseInt32(Some(ToDecimal(pt))) == Ok(pt);
    FormatIndexAt(x.formats, k, pt);
  }

  lemma FeedbackLine(x: MediaDescription, k: nat, pt: int32, cap: string)
    requires DistinctKeys(x.formats) && k < |x.formats| && x.formats[k].payloadType == pt
    requires x.formats[k].rtcpFeedback.Some?
    ensures ParseMediaDescriptionAttribute(x, AttributeText("rtcp-fb", ToDecimal(pt) + " " + cap))
            == Ok(x.(formats := x.formats[k := x.formats[k].(rtcpFeedback := Some(x.formats[k].rtcpFeedback.value + [cap]))]))
  {
    ParseAttributeText("rtcp-fb", ToDecimal(pt) + " " + cap);
    FeedbackDispatch(x, AttributeText("rtcp-fb", ToDecimal(pt) + " " + cap), ToDecimal(pt) + " " + cap);
    FeedbackValueParse(x, k, pt, cap);
  }

  lemma FeedbackDispatch(x: MediaDescription, attribute: string, v: string)
    requires ParseAttributeKeyValue(attribute) == Attribute("rtcp-fb", Some(v))
    ensures ParseMediaDescriptionAttribute(x, attribute) == ParseRtcpFeedbackCapabilityAttribute(x, v)
  {
    var key := "rtcp-fb";
    assert ModeOf(key) == None;
    assert key != "control" && key != "framerate" && key != "mid" && key != "ice-ufrag";
    assert key != "ice-pwd" && key != "ice-options" && key != "fingerprint" && key != "setup";
    assert key != "rtpmap" && key != "fmtp";
  }

  /** The first feedback line of a format appends its capability. */
  lemma FeedbackStep(x: MediaDescription, k: nat, pt: int32, caps: seq<string>)
    requires DistinctKeys(x.formats) && k < |x.formats| && x.formats[k].payloadType == pt
    requires x.formats[k].rtcpFeedback.Some? && |caps| > 0
    ensures var f := x.formats[k];
            ApplyLines(x, MB.FeedbackLines(pt, caps))
            == ApplyLines(x.(formats := x.formats[k := f.(rtcpFeedback := Some(f.rtcpFeedback.value + [caps[0]]))]),
                          MB.FeedbackLines(pt, caps[1..]))
  {
    var f := x.formats[k];
    var x1 := x.(formats := x.formats[k := f.(rtcpFeedback := Some(f.rtcpFeedback.value + [caps[0]]))]);
    var text := AttributeText("rtcp-fb", ToDecimal(pt) + " " + caps[0]);
    var rest := MB.FeedbackLines(pt, caps[1..]);
    assert MB.FeedbackLines(pt, caps) == [LineText("a", text)] + rest;
    FeedbackLine(x, k, pt, caps[0]);
    AttributeLine(x, text, x1, rest);
  }

  /** Capabilities appended to the feedback list of the format at `k`. */
  function AppendFeedback(x: MediaDescription, k: nat, caps: seq<string>): MediaDescription
    requires k < |x.formats| && x.formats[k].rtcpFeedback.Some?
  {
    x.(formats := x.formats[k := x.formats[k].(rtcpFeedback := Some(x.formats[k].rtcpFeedback.value + caps))])
  }

  /** Appending two runs of capabilities one after the other. */
  lemma AppendFeedbackTwice(x: MediaDescription, k: nat, a: seq<string>, b: seq<string>)
    requires k < |x.formats| && x.formats[k].rtcpFeedback.Some?
    ensures AppendFeedback(AppendFeedback(x, k, a), k, b) == AppendFeedback(x, k, a + b)
  {
    var v := x.formats[k].rtcpFeedback.value;
    Assoc(v, a, b);
  }

  /** The feedback lines of one format append their capabilities in order. */
  lemma {:induction false} FeedbackLinesApply(x: MediaDescription, k: nat, pt: int32, caps: seq<string>)
    requires DistinctKeys(x.formats) && k < |x.formats| && x.formats[k].payloadType == pt
    requires x.formats[k].rtcpFeedback.Some?
    ensures ApplyLines(x, MB.FeedbackLines(pt, caps)) == Some(AppendFeedback(x, k, caps))
    decreases |caps|
  {
    if |caps| == 0 {
      var f := x.formats[k];
      assert f.rtcpFeedback.value + caps == f.rtcpFeedback.value;
      assert x.formats[k := f] == x.formats;
    } else {
      var x1 := AppendFeedback(x, k, [caps[0]]);
      FeedbackStep(x, k, pt, caps);
      DistinctKeysUpdate(x.formats, k, x1.formats[k]);
      FeedbackLinesApply(x1, k, pt, caps[1..]);
      AppendFeedbackTwice(x, k, [caps[0]], caps[1..]);
      ConsTail(caps);
    }
  }

  /** The format at `k` after its rtpmap line. */
  function Mapped(x: MediaDescription, k: nat, f: MediaFormat): MediaDescription
    requires k < |x.formats|
  {
    x.(formats := x.formats[k := x.formats[k].(encodingName := Some(Str(f.encodingName)), clockRate := f.clockRate,
                                               encodingParameters := f.encodingParameters)])
  }

  /** The format at `k` with the parameters of an fmtp line. */
  function WithParameters(x: MediaDescription, k: nat, parameters: Option<string>): MediaDescription
    requires k < |x.formats|
  {
    x.(formats := x.formats[k := x.formats[k].(formatParameters := parameters)])
  }

  /** The feedback lines of a block, if any. */
  function FeedbackOf(f: MediaFormat): seq<string>
  {
    if f.rtcpFeedback.Some? then MB.FeedbackLines(f.payloadType, f.rtcpFeedback.value) else []
  }

  /** The optional fmtp line of a block. */
  function FmtpOf(f: MediaFormat): seq<string>
  {
    if f.formatParameters.Some? then [LineText("a", AttributeText("fmtp", ToDecimal(f.payloadType) + " " + f.formatParameters.value))]
    else []
  }

  lemma RtpMapThen(x: MediaDescription, k: nat, f: MediaFormat, rest: seq<string>)
    requires DistinctKeys(x.formats) && k < |x.formats| && x.formats[k].payloadType == f.payloadType
    requires PrintableFormat(f)
    ensures ApplyLines(x, [LineText("a", AttributeText("rtpmap", MB.RtpMapValue(f)))] + rest)
            == ApplyLines(Mapped(x, k, f), rest)
  {
    RtpMapLine(x, k, f);
    AttributeLine(x, AttributeText("rtpmap", MB.RtpMapValue(f)), Mapped(x, k, f), rest);
  }

  /** An fmtp line, when there is one, sets the parameters it carries. */
  lemma FmtpThen(x: MediaDescription, k: nat, f: MediaFormat, rest: seq<string>)
    requires DistinctKeys(x.formats) && k < |x.formats| && x.formats[k].payloadType == f.payloadType
    requires x.formats[k].formatParameters.None?
    ensures ApplyLines(x, FmtpOf(f) + rest) == ApplyLines(WithParameters(x, k, f.formatParameters), rest)
  {
    if f.formatParameters.Some? {
      var p := f.formatParameters.value;
      FmtpLine(x, k, f.payloadType, p);
      AttributeLine(x, AttributeText("fmtp", ToDecimal(f.payloadType) + " " + p), WithParameters(x, k, f.formatParameters), rest);
    } else {
      assert FmtpOf(f) + rest == rest;
      assert x.formats[k := x.formats[k]] == x.formats;
    }
  }

  /** The feedback lines, when there are any, append to the empty list. */
  lemma FeedbackThen(x: MediaDescription, k: nat, f: MediaFormat, rest: seq<string>)
    requires DistinctKeys(x.formats) && k < |x.formats| && x.formats[k].payloadType == f.payloadType
    requires x.formats[k].rtcpFeedback == Some([])
    ensures ApplyLines(x, FeedbackOf(f) + rest)
            == ApplyLines(AppendFeedback(x, k, if f.rtcpFeedback.Some? then f.rtcpFeedback.value else []), rest)
  {
    if f.rtcpFeedback.Some? {
      FeedbackLinesApply(x, k, f.payloadType, f.rtcpFeedback.value);
      ApplyLinesAppend(x, FeedbackOf(f), rest);
    } else {
      assert FeedbackOf(f) + rest == rest;
      assert x.formats[k].rtcpFeedback.value + [] == [];
      assert x.formats[k := x.formats[k]] == x.formats;
    }
  }

  /** The three stages of a block build the recovered format. */
  lemma BlockStages(x: MediaDescription, k: nat, f: MediaFormat)
    requires k < |x.formats| && x.formats[k] == NewMediaFormat(f.payloadType)
    ensures var y := WithParameters(Mapped(x, k, f), k, f.formatParameters);
            && y.formats[k].rtcpFeedback == Some([])
            && AppendFeedback(y, k, if f.rtcpFeedback.Some? then f.rtcpFeedback.value else [])
               == x.(formats := x.formats[k := RecoveredFormat(f)])
  {
    var caps := if f.rtcpFeedback.Some? then f.rtcpFeedback.value else [];
    assert [] + caps == caps;
  }

  /** The block of one format turns the entry the m= line created into
      the recovered format. */
  lemma FormatBlock(x: MediaDescription, k: nat, f: MediaFormat, rest: seq<string>)
    requires DistinctKeys(x.formats) && k < |x.formats| && x.formats[k] == NewMediaFormat(f.payloadType)
    requires PrintableFormat(f)
    ensures ApplyLines(x, MB.FormatLines(f) + rest) == ApplyLines(x.(formats := x.formats[k := RecoveredFormat(f)]), rest)
  {
    var rtpmap := [LineText("a", AttributeText("rtpmap", MB.RtpMapValue(f)))];
    var tail := FeedbackOf(f) + rest;
    assert MB.FormatLines(f) + rest == rtpmap + (FmtpOf(f) + tail);
    RtpMapThen(x, k, f, FmtpOf(f) + tail);
    var x1 := Mapped(x, k, f);
    DistinctKeysUpdate(x.formats, k, x1.formats[k]);
    FmtpThen(x1, k, f, tail);
    var x2 := WithParameters(x1, k, f.formatParameters);
    DistinctKeysUpdate(x1.formats, k, x2.formats[k]);
    BlockStages(x, k, f);
    FeedbackThen(x2, k, f, rest);
  }

  lemma PartlyRecoveredKeys(fs: seq<MediaFormat>, j: nat)
    requires DistinctKeys(fs)
    ensures DistinctKeys(PartlyRecovered(fs, j))
  {
    var r := PartlyRecovered(fs, j);
    assert forall i | 0 <= i < |fs| :: r[i].payloadType == fs[i].payloadType;
  }

  /** One more block read back. */
  lemma PartlyRecoveredStep(fs: seq<MediaFormat>, j: nat)
    requires j < |fs|
    ensures PartlyRecovered(fs, j)[j] == NewMediaFormat(fs[j].payloadType)
    ensures PartlyRecovered(fs, j)[j := RecoveredFormat(fs[j])] == PartlyRecovered(fs, j + 1)
  {
  }

  lemma FormatsLinesCons(fs: seq<MediaFormat>, j: nat, rest: seq<string>)
    requires j < |fs|
    ensures MB.FormatsLines(fs[j..]) + rest == MB.FormatLines(fs[j]) + (MB.FormatsLines(fs[j + 1..]) + rest)
  {
    assert fs[j..][0] == fs[j] && fs[j..][1..] == fs[j + 1..];
  }

  /** The blocks of formats `j` onwards, applied to formats of which the
      first `j` are read back, read back all of them. */
  lemma {:induction false} FormatsBlocks(x: MediaDescription, fs: seq<MediaFormat>, j: nat, rest: seq<string>)
    requires j <= |fs| && DistinctKeys(fs) && x.formats == PartlyRecovered(fs, j)
    requires forall k | 0 <= k < |fs| :: PrintableFormat(fs[k])
    ensures ApplyLines(x, MB.FormatsLines(fs[j..]) + rest) == ApplyLines(x.(formats := PartlyRecovered(fs, |fs|)), rest)
    decreases |fs| - j
  {
    if j == |fs| {
      assert MB.FormatsLines(fs[j..]) + rest == rest;
      assert x.(formats := PartlyRecovered(fs, |fs|)) == x;
    } else {
      FormatsLinesCons(fs, j, rest);
      PartlyRecoveredKeys(fs, j);
      PartlyRecoveredStep(fs, j);
      FormatBlock(x, j, fs[j], MB.FormatsLines(fs[j + 1..]) + rest);
      var x1 := x.(formats := PartlyRecovered(fs, j + 1));
      FormatsBlocks(x1, fs, j + 1, rest);
    }
  }

  // ---- The m= line ----

  /** The fresh entries of the first `j` formats. */
  function Fresh(fs: seq<MediaFormat>, j: nat): (r: seq<MediaFormat>)
    requires j <= |fs| && DistinctKeys(fs)
    ensures |r| == j && DistinctKeys(r)
    ensures forall k | 0 <= k < j :: r[k] == NewMediaFormat(fs[k].payloadType)
  {
    seq(j, k requires 0 <= k < j => NewMediaFormat(fs[k].payloadType))
  }

  /** The next payload type is new to the fresh entries before it, which
      it extends by one. */
  lemma FreshNext(fs: seq<MediaFormat>, j: nat)
    requires j < |fs| && DistinctKeys(fs)
    ensures FormatIndex(Fresh(fs, j), fs[j].payloadType) == -1
    ensures Fresh(fs, j) + [NewMediaFormat(fs[j].payloadType)] == Fresh(fs, j + 1)
  {
  }

  /** A payload type new to the dictionary adds a fresh entry. */
  lemma ParseFormatsCons(tokens: seq<string>, acc: seq<MediaFormat>, pt: int32)
    requires DistinctKeys(acc) && |tokens| > 0 && ParseInt32(Some(tokens[0])) == Ok(pt) && FormatIndex(acc, pt) == -1
    ensures DistinctKeys(acc + [NewMediaFormat(pt)])
    ensures ParseFormats(tokens, acc) == ParseFormats(tokens[1..], acc + [NewMediaFormat(pt)])
  {
  }

  /** One payload type of the m= line, new to the entries before it. */
  lemma ParseFormatsStep(fs: seq<MediaFormat>, j: nat)
    requires j < |fs| && DistinctKeys(fs)
    ensures ParseFormats(MB.PayloadTypeTexts(fs)[j..], Fresh(fs, j)) == ParseFormats(MB.PayloadTypeTexts(fs)[j + 1..], Fresh(fs, j + 1))
  {
    var tokens := MB.PayloadTypeTexts(fs)[j..];
    var pt := fs[j].payloadType;
    DecimalField(pt, -0x8000_0000, 0x7FFF_FFFF);
    assert tokens[0] == ToDecimal(pt) && tokens[1..] == MB.PayloadTypeTexts(fs)[j + 1..];
    FreshNext(fs, j);
    ParseFormatsCons(tokens, Fresh(fs, j), pt);
  }

  /** The payload types of the m= line create, in order, one fresh entry
      per format. */
  lemma {:induction false} ParseFormatsOf(fs: seq<MediaFormat>, j: nat)
    requires j <= |fs| && DistinctKeys(fs)
    ensures ParseFormats(MB.PayloadTypeTexts(fs)[j..], Fresh(fs, j)) == Ok(PartlyRecovered(fs, 0))
    decreases |fs| - j
  {
    if j == |fs| {
      assert Fresh(fs, j) == PartlyRecovered(fs, 0);
    } else {
      ParseFormatsStep(fs, j);
      ParseFormatsOf(fs, j + 1);
    }
  }

  /** The space-separated fields of an m= line with at least one format. */
  function MediaFields(md: MediaDescription): seq<string>
  {
    [Str(md.media), ToDecimal(md.port), Str(md.protocol)] + MB.PayloadTypeTexts(md.formats)
  }

  lemma MediaFieldsSplit(md: MediaDescription)
    requires |md.formats| >= 1 && ' ' !in Str(md.media) && ' ' !in Str(md.protocol)
    ensures Split(MB.MediaLineValue(md), ' ') == MediaFields(md)
  {
    var head := [Str(md.media), ToDecimal(md.port), Str(md.protocol)];
    JoinFlatten(head, MB.PayloadTypeTexts(md.formats), " ");
    assert head + [Join(MB.PayloadTypeTexts(md.formats), " ")] == [Str(md.media), ToDecimal(md.port), Str(md.protocol), Join(MB.PayloadTypeTexts(md.formats), " ")];
    var fields := MediaFields(md);
    DecimalToken(md.port);
    assert fields[0] == Str(md.media) && fields[1] == ToDecimal(md.port) && fields[2] == Str(md.protocol);
    forall k | 3 <= k < |fields|
      ensures ' ' !in fields[k]
    {
      DecimalToken(md.formats[k - 3].payloadType);
    }
    JoinSplit(fields, ' ');
  }

  /** The m= line of a section with formats opens a fresh section with
      its media, port, protocol and payload types. */
  lemma MediaLineParse(md: MediaDescription)
    requires |md.formats| >= 1 && DistinctKeys(md.formats)
    requires ' ' !in Str(md.media) && ' ' !in Str(md.protocol)
    ensures ParseMediaLine(MB.MediaLineValue(md))
            == Ok(NewMediaDescription.(media := Some(Str(md.media)), port := md.port, protocol := Some(Str(md.protocol)),
                                       formats := PartlyRecovered(md.formats, 0)))
  {
    var parts := MediaFields(md);
    MediaFieldsSplit(md);
    DecimalField(md.port, -0x8000_0000, 0x7FFF_FFFF);
    assert parts[1] == ToDecimal(md.port);
    assert parts[3..] == MB.PayloadTypeTexts(md.formats)[0..];
    ParseFormatsOf(md.formats, 0);
    assert Fresh(md.formats, 0) == [];
  }

  /** Without formats the m= line ends in a space, and the empty payload
      type after it fails to parse: such a section does not read back. */
  lemma EmptyFormatsFail(md: MediaDescription)
    requires |md.formats| == 0 && ' ' !in Str(md.media) && ' ' !in Str(md.protocol)
    ensures ParseMediaLine(MB.MediaLineValue(md)) == Fail(Format)
  {
    var fields := [Str(md.media), ToDecimal(md.port), Str(md.protocol), ""];
    assert MB.PayloadTypeTexts(md.formats) == [] && Join([], " ") == "";
    DecimalField(md.port, -0x8000_0000, 0x7FFF_FFFF);
    JoinSplit(fields, ' ');
    assert fields[3..] == [""];
    assert ParseInt32(Some("")) == Fail(Format);
  }

  // ---- The source and the candidates ----

  lemma SsrcDispatch(x: MediaDescription, attribute: string, v: string)
    requires ParseAttributeKeyValue(attribute) == Attribute("ssrc", Some(v))
    ensures ParseMediaDescriptionAttribute(x, attribute) == ParseSsrcAttribute(x, v)
  {
    var key := "ssrc";
    assert ModeOf(key) == None;
    assert key != "control" && key != "framerate" && key != "mid" && key != "ice-ufrag";
    assert key != "ice-pwd" && key != "ice-options" && key != "fingerprint" && key != "setup";
    assert key != "rtpmap" && key != "fmtp" && key != "rtcp-fb";
  }

  /** An ssrc line whose value parses to `md'`. */
  lemma SsrcLine(x: MediaDescription, v: string, x': MediaDescription, rest: seq<string>)
    requires ParseSsrcAttribute(x, v) == Ok(x')
    ensures ApplyLines(x, [LineText("a", AttributeText("ssrc", v))] + rest) == ApplyLines(x', rest)
  {
    ParseAttributeText("ssrc", v);
    SsrcDispatch(x, AttributeText("ssrc", v), v);
    AttributeLine(x, AttributeText("ssrc", v), x', rest);
  }

  /** The two ssrc lines keep only the SSRC (see `SsrcCNameLost` and
      `SsrcMsIdLost`). */
  lemma SourceLinesApply(x: MediaDescription, md: MediaDescription, rest: seq<string>)
    requires ' ' !in Str(md.source.cname) && ' ' !in Str(md.source.msId)
    ensures ApplyLines(x, MB.SourceLines(md) + rest) == ApplyLines(x.(source := x.source.(ssrc := md.source.ssrc)), rest)
  {
    var ssrc := md.source.ssrc;
    var v1 := ToDecimal(ssrc) + " " + AttributeText("cname", Str(md.source.cname));
    var v2 := ToDecimal(ssrc) + " " + AttributeText("msid", Str(md.source.msId)) + " " + Str(md.source.msIdAppData);
    var x1 := x.(source := x.source.(ssrc := ssrc));
    var r2 := [LineText("a", AttributeText("ssrc", v2))] + rest;
    assert MB.SourceLines(md) + rest == [LineText("a", AttributeText("ssrc", v1))] + r2;
    SsrcCNameLost(x, ssrc, Str(md.source.cname));
    SsrcLine(x, v1, x1, r2);
    SsrcMsIdLost(x1, ssrc, Str(md.source.msId), Str(md.source.msIdAppData));
    assert x1.(source := x1.source.(ssrc := ssrc)) == x1;
    SsrcLine(x1, v2, x1, rest);
  }

  /** A candidate as its line reads back: the text fields non-null. */
  function RecoveredCandidate(c: IceCandidate): IceCandidate
  {
    c.(transport := Some(Str(c.transport)), connectionAddress := Some(Str(c.connectionAddress)),
       candidateType := Some(Str(c.candidateType)))
  }

  /** The text fields of a candidate the parser splits on spaces. */
  predicate CandidateTokens(c: IceCandidate)
  {
    Token(Str(c.transport)) && Token(Str(c.connectionAddress)) && Token(Str(c.candidateType))
  }

  lemma CandidateFieldsSplit(c: IceCandidate)
    requires CandidateTokens(c)
    ensures Split(MB.CandidateValue(c), ' ') == MB.CandidateFields(c)
  {
    var fields := MB.CandidateFields(c);
    DecimalToken(c.foundation);
    DecimalToken(c.componentId);
    DecimalToken(c.priority);
    DecimalToken(c.port);
    assert forall k | 0 <= k < |fields| :: ' ' !in fields[k];
    JoinSplit(fields, ' ');
  }

  lemma CandidateValueParse(c: IceCandidate)
    requires CandidateTokens(c)
    ensures ParseCandidate(MB.CandidateValue(c)) == Ok(RecoveredCandidate(c))
  {
    CandidateFieldsSplit(c);
    DecimalRoundTrip(c.foundation, -0x8000_0000_0000_0000, 0x7FFF_FFFF_FFFF_FFFF);
    DecimalRoundTrip(c.componentId, 0, 0xFF);
    DecimalRoundTrip(c.priority, 0, 0xFFFF_FFFF);
    DecimalRoundTrip(c.port, 0, 0xFFFF);
  }

  lemma CandidateDispatch(x: MediaDescription, attribute: string, v: string)
    requires ParseAttributeKeyValue(attribute) == Attribute("candidate", Some(v))
    ensures ParseMediaDescriptionAttribute(x, attribute)
            == (var c :- ParseCandidate(v); Ok(x.(candidates := x.candidates + [c])))
  {
    var key := "candidate";
    KeysDistinct();
    assert ModeOf(key) == None;
    assert key != "control" && key != "framerate" && key != "mid" && key != "ice-ufrag";
    assert key != "ice-pwd" && key != "ice-options" && key != "fingerprint" && key != "setup";
    assert key != "rtpmap" && key != "fmtp" && key != "rtcp-fb" && key != "ssrc";
  }

  /** A candidate attribute appends the candidate it carries, read back. */
  lemma CandidateAttribute(x: MediaDescription, c: IceCandidate)
    requires CandidateTokens(c)
    ensures ParseMediaDescriptionAttribute(x, AttributeText("candidate", MB.CandidateValue(c)))
            == Ok(x.(candidates := x.candidates + [RecoveredCandidate(c)]))
  {
    var v := MB.CandidateValue(c);
    ParseAttributeText("candidate", v);
    CandidateValueParse(c);
    CandidateDispatch(x, AttributeText("candidate", v), v);
  }

  /** The first candidate line appends its candidate. */
  lemma CandidateStep(x: MediaDescription, cs: seq<IceCandidate>, rest: seq<string>)
    requires |cs| > 0 && CandidateTokens(cs[0])
    ensures ApplyLines(x, MB.CandidateLines(cs) + rest)
            == ApplyLines(x.(candidates := x.candidates + [RecoveredCandidate(cs[0])]), MB.CandidateLines(cs[1..]) + rest)
  {
    var v := MB.CandidateValue(cs[0]);
    var x1 := x.(candidates := x.candidates + [RecoveredCandidate(cs[0])]);
    assert MB.CandidateLines(cs) + rest == [LineText("a", AttributeText("candidate", v))] + (MB.CandidateLines(cs[1..]) + rest);
    CandidateAttribute(x, cs[0]);
    AttributeLine(x, AttributeText("candidate", v), x1, MB.CandidateLines(cs[1..]) + rest);
  }

  lemma RecoveredCandidatesCons(prefix: seq<IceCandidate>, cs: seq<IceCandidate>)
    requires |cs| > 0
    ensures prefix + [RecoveredCandidate(cs[0])] + RecoveredCandidates(cs[1..]) == prefix + RecoveredCandidates(cs)
  {
    assert RecoveredCandidates(cs) == [RecoveredCandidate(cs[0])] + RecoveredCandidates(cs[1..]);
  }

  /** The candidate lines append their candidates, read back, in order. */
  lemma {:induction false} CandidateLinesApply(x: MediaDescription, cs: seq<IceCandidate>, rest: seq<string>)
    requires forall k | 0 <= k < |cs| :: CandidateTokens(cs[k])
    ensures ApplyLines(x, MB.CandidateLines(cs) + rest)
            == ApplyLines(x.(candidates := x.candidates + RecoveredCandidates(cs)), rest)
    decreases |cs|
  {
    if |cs| == 0 {
      assert MB.CandidateLines(cs) + rest == rest;
      assert x.candidates + RecoveredCandidates(cs) == x.candidates;
    } else {
      var x1 := x.(candidates := x.candidates + [RecoveredCandidate(cs[0])]);
      CandidateStep(x, cs, rest);
      CandidateLinesApply(x1, cs[1..], rest);
      RecoveredCandidatesCons(x.candidates, cs);
    }
  }

  function RecoveredCandidates(cs: seq<IceCandidate>): (r: seq<IceCandidate>)
    ensures |r| == |cs|
  {
    seq(|cs|, k requires 0 <= k < |cs| => RecoveredCandidate(cs[k]))
  }

  // ---- A whole section ----

  function RecoveredFormats(fs: seq<MediaFormat>): (r: seq<MediaFormat>)
    ensures |r| == |fs|
  {
    seq(|fs|, k requires 0 <= k < |fs| => RecoveredFormat(fs[k]))
  }

  /** A section as its lines read back. */
  function Recovered(md: MediaDescription): MediaDescription
    requires md.connection.Some?
  {
    MediaDescription(
      Some(Str(md.mediaId)), Some(Str(md.media)), true, md.port, Some(Str(md.protocol)),
      if SRM.Named(md.mode) then md.mode else SRM.Default,
      RecoveredCandidates(md.candidates), RecoveredFormats(md.formats),
      Some(RecoveredConnection(md.connection.value)), MediaSource(md.source.ssrc, None, None, None),
      DtlsAttributes(Some(Str(md.dtls.setup)), Some(Str(md.dtls.hashFunc)), Some(Str(md.dtls.fingerprint))),
      IceAttributes(Some(Str(md.ice.usernameFragment)), Some(Str(md.ice.password)), Some(Str(md.ice.options))),
      None, None)
  }

  /** A section whose lines read back: it has a connection and at least
      one format, no field holds a line break, the fields the parser splits
      on spaces hold none, and its payload types are distinct (it is a
      dictionary in the builder). */
  predicate Printable(md: MediaDescription)
  {
    && md.connection.Some?
    && Token(Str(md.media)) && Token(Str(md.protocol))
    && Token(Str(md.connection.value.netType)) && Token(Str(md.connection.value.addrType))
    && Token(Str(md.connection.value.address))
    && Plain(Str(md.mediaId)) && Plain(Str(md.ice.usernameFragment)) && Plain(Str(md.ice.password))
    && Plain(Str(md.ice.options)) && Token(Str(md.dtls.hashFunc)) && Token(Str(md.dtls.fingerprint))
    && Plain(Str(md.dtls.setup))
    && Token(Str(md.source.cname)) && Token(Str(md.source.msId)) && Plain(Str(md.source.msIdAppData))
    && |md.formats| >= 1 && DistinctKeys(md.formats)
    && (forall k | 0 <= k < |md.formats| :: PrintableFormat(md.formats[k]))
    && (forall k | 0 <= k < |md.candidates| :: CandidateTokens(md.candidates[k]))
  }

  /** The section the m= line opens. */
  function Opened(md: MediaDescription): MediaDescription
  {
    NewMediaDescription.(media := Some(Str(md.media)), port := md.port, protocol := Some(Str(md.protocol)),
                         formats := PartlyRecovered(md.formats, 0))
  }

  /** The last line changes nothing. */
  lemma EndLine(x: MediaDescription)
    ensures ApplyLines(x, [LineText("a", MB.EndOfCandidates)]) == Some(x)
  {
    EndOfCandidatesLine(x);
    AttributeLine(x, MB.EndOfCandidates, x, []);
  }

  /** The states of a section between the blocks of its body. */
  function AfterFormats(md: MediaDescription): MediaDescription
    requires md.connection.Some?
  {
    AfterHead(Opened(md), md).(formats := PartlyRecovered(md.formats, |md.formats|))
  }

  function AfterSource(md: MediaDescription): MediaDescription
    requires md.connection.Some?
  {
    var y := AfterFormats(md);
    y.(source := y.source.(ssrc := md.source.ssrc))
  }

  lemma BodyHead(md: MediaDescription)
    requires Printable(md)
    ensures var tail := MB.FormatsLines(md.formats) + MB.SourceLines(md) + MB.CandidateLines(md.candidates)
                        + [LineText("a", MB.EndOfCandidates)];
            ApplyLines(Opened(md), MB.BodyLines(md)) == ApplyLines(AfterHead(Opened(md), md), tail)
  {
    var c := [LineText("c", MB.ConnectionValue(md.connection.value))];
    var h := MB.HeadAttributeLines(md);
    var f, src, cl := MB.FormatsLines(md.formats), MB.SourceLines(md), MB.CandidateLines(md.candidates);
    var e := [LineText("a", MB.EndOfCandidates)];
    assert c + h + f + src + cl + e == c + h + (f + src + cl + e);
    HeadLines(Opened(md), md, f + src + cl + e);
  }

  lemma BodyFormats(md: MediaDescription)
    requires Printable(md)
    ensures var tail := MB.SourceLines(md) + MB.CandidateLines(md.candidates) + [LineText("a", MB.EndOfCandidates)];
            ApplyLines(AfterHead(Opened(md), md), MB.FormatsLines(md.formats) + MB.SourceLines(md)
                                                  + MB.CandidateLines(md.candidates) + [LineText("a", MB.EndOfCandidates)])
            == ApplyLines(AfterFormats(md), tail)
  {
    var f, src, cl := MB.FormatsLines(md.formats), MB.SourceLines(md), MB.CandidateLines(md.candidates);
    var e := [LineText("a", MB.EndOfCandidates)];
    assert f + src + cl + e == f + (src + cl + e);
    assert md.formats[0..] == md.formats;
    FormatsBlocks(AfterHead(Opened(md), md), md.formats, 0, src + cl + e);
  }

  lemma BodySource(md: MediaDescription)
    requires Printable(md)
    ensures ApplyLines(AfterFormats(md), MB.SourceLines(md) + MB.CandidateLines(md.candidates) + [LineText("a", MB.EndOfCandidates)])
            == ApplyLines(AfterSource(md), MB.CandidateLines(md.candidates) + [LineText("a", MB.EndOfCandidates)])
  {
    var src, cl := MB.SourceLines(md), MB.CandidateLines(md.candidates);
    var e := [LineText("a", MB.EndOfCandidates)];
    assert src + cl + e == src + (cl + e);
    SourceLinesApply(AfterFormats(md), md, cl + e);
  }

  lemma BodyCandidates(md: MediaDescription)
    requires Printable(md)
    ensures ApplyLines(AfterSource(md), MB.CandidateLines(md.candidates) + [LineText("a", MB.EndOfCandidates)])
            == Some(Recovered(md))
  {
    var y := AfterSource(md);
    CandidateLinesApply(y, md.candidates, [LineText("a", MB.EndOfCandidates)]);
    var y' := y.(candidates := y.candidates + RecoveredCandidates(md.candidates));
    EndLine(y');
    assert PartlyRecovered(md.formats, |md.formats|) == RecoveredFormats(md.formats);
    assert [] + RecoveredCandidates(md.candidates) == RecoveredCandidates(md.candidates);
    assert y' == Recovered(md);
  }

  /** The lines after the m= line fold the opened section into the
      recovered one. */
  lemma SectionBody(md: MediaDescription)
    requires Printable(md)
    ensures ApplyLines(Opened(md), MB.BodyLines(md)) == Some(Recovered(md))
  {
    BodyHead(md);
    BodyFormats(md);
    BodySource(md);
    BodyCandidates(md);
  }

  /** A built section read back by the section parser, whatever follows
      it: the recovered section is added once the lines that follow are
      read. */
  lemma SectionRoundTrip(sd: SessionDescription, md: MediaDescription, rest: seq<string>)
    requires Printable(md)
    ensures ParseMediaSection(sd, MB.MediaLineValue(md), MB.BodyLines(md) + rest) == ParseMediaLines(sd, Recovered(md), rest)
  {
    MediaLineParse(md);
    assert ParseMediaLine(MB.MediaLineValue(md)) == Ok(Opened(md));
    SectionBody(md);
    ParseAppliedLines(sd, Opened(md), MB.BodyLines(md), rest);
  }

  /** The ICE credentials and options a section is given are the ones
      its built lines read back with; the rest of the section reads back as
      before. */
  lemma IceParametersRoundTrip(sd: SessionDescription, md: MediaDescription, usernameFragment: NString,
                               password: NString, options: NString, rest: seq<string>)
    requires Printable(md)
    requires Plain(Str(usernameFragment)) && Plain(Str(password)) && Plain(Str(options))
    ensures var built := MB.SetIceParameters(md, usernameFragment, password, options);
            ParseMediaSection(sd, MB.MediaLineValue(built), MB.BodyLines(built) + rest)
            == ParseMediaLines(sd, Recovered(md).(ice := IceAttributes(Some(Str(usernameFragment)), Some(Str(password)),
                                                                       Some(Str(options)))), rest)
  {
    SectionRoundTrip(sd, MB.SetIceParameters(md, usernameFragment, password, options), rest);
  }

  /** With the default options, the section reads back with "trickle". */
  lemma IceDefaultsRoundTrip(sd: SessionDescription, md: MediaDescription, usernameFragment: NString,
                             password: NString, rest: seq<string>)
    requires Printable(md) && Plain(Str(usernameFragment)) && Plain(Str(password))
    ensures var built := MB.SetIceParameters(md, usernameFragment, password, Some(MB.DefaultIceOptions));
            ParseMediaSection(sd, MB.MediaLineValue(built), MB.BodyLines(built) + rest)
            == ParseMediaLines(sd, Recovered(md).(ice := IceAttributes(Some(Str(usernameFragment)), Some(Str(password)),
                                                                       Some("trickle"))), rest)
  {
    IceParametersRoundTrip(sd, md, usernameFragment, password, Some(MB.DefaultIceOptions), rest);
  }

  /** The DTLS hash function, fingerprint and role a section is given are
      the ones its built lines read back with; the rest of the section reads
      back as before. */
  lemma DtlsParametersRoundTrip(sd: SessionDescription, md: MediaDescription, hashFunc: NString,
                                fingerprint: NString, setup: NString, rest: seq<string>)
    requires Printable(md)
    requires Token(Str(hashFunc)) && Token(Str(fingerprint)) && Plain(Str(setup))
    ensures var built := MB.SetDtlsParameters(md, hashFunc, fingerprint, setup);
            ParseMediaSection(sd, MB.MediaLineValue(built), MB.BodyLines(built) + rest)
            == ParseMediaLines(sd, Recovered(md).(dtls := DtlsAttributes(Some(Str(setup)), Some(Str(hashFunc)),
                                                                         Some(Str(fingerprint)))), rest)
  {
    SectionRoundTrip(sd, MB.SetDtlsParameters(md, hashFunc, fingerprint, setup), rest);
  }

  /** With the default role, the section reads back with "actpass". */
  lemma DtlsDefaultsRoundTrip(sd: SessionDescription, md: MediaDescription, hashFunc: NString,
                              fingerprint: NString, rest: seq<string>)
    requires Printable(md) && Token(Str(hashFunc)) && Token(Str(fingerprint))
    ensures var built := MB.SetDtlsParameters(md, hashFunc, fingerprint, Some(MB.DefaultSetup));
            ParseMediaSection(sd, MB.MediaLineValue(built), MB.BodyLines(built) + rest)
            == ParseMediaLines(sd, Recovered(md).(dtls := DtlsAttributes(Some("actpass"), Some(Str(hashFunc)),
                                                                         Some(Str(fingerprint)))), rest)
  {
    DtlsParametersRoundTrip(sd, md, hashFunc, fingerprint, Some(MB.DefaultSetup), rest);
  }

  // ---- The sections of a session ----

  /** The lines of the sections one after another. */
  function SectionLines(mds: seq<MediaDescription>): seq<string>
    requires forall k | 0 <= k < |mds| :: mds[k].connection.Some?
  {
    if |mds| == 0 then []
    else [LineText("m", MB.MediaLineValue(mds[0]))] + (MB.BodyLines(mds[0]) + SectionLines(mds[1..]))
  }

  function RecoveredAll(mds: seq<MediaDescription>): (r: seq<MediaDescription>)
    requires forall k | 0 <= k < |mds| :: mds[k].connection.Some?
    ensures |r| == |mds|
  {
    seq(|mds|, k requires 0 <= k < |mds| => Recovered(mds[k]))
  }

  lemma RecoveredAllTail(mds: seq<MediaDescription>)
    requires |mds| > 0 && forall k | 0 <= k < |mds| :: mds[k].connection.Some?
    ensures Reverse(RecoveredAll(mds)) == Reverse(RecoveredAll(mds[1..])) + [Recovered(mds[0])]
  {
    assert RecoveredAll(mds)[1..] == RecoveredAll(mds[1..]);
  }

  /** A nested m= line hands the rest to a new section and adds the
      current one after it. */
  lemma NestedLine(sd: SessionDescription, x: MediaDescription, v: string, rest: seq<string>)
    ensures ParseMediaLines(sd, x, [LineText("m", v)] + rest)
            == (var sd' :- ParseMediaSection(sd, v, rest); Ok(sd'.(media := sd'.media + [x])))
  {
    MediaLineNested(x, v);
    assert ([LineText("m", v)] + rest)[1..] == rest;
  }

  /** An m= line inside a section opens a new one. */
  lemma MediaLineNested(x: MediaDescription, v: string)
    ensures MediaLine(x, LineText("m", v)) == Ok(Nested(v))
  {
    ParseLineText("m", v);
    assert "m" != "c" && "m" != "a";
  }

  /** The sections that follow a section's lines are read back nested in
      it: they are added to the session in reverse order, and the section
      itself last. */
  lemma {:induction false} SectionsRoundTrip(sd: SessionDescription, x: MediaDescription, mds: seq<MediaDescription>)
    requires forall k | 0 <= k < |mds| :: mds[k].connection.Some? && Printable(mds[k])
    ensures ParseMediaLines(sd, x, SectionLines(mds)) == Ok(sd.(media := sd.media + Reverse(RecoveredAll(mds)) + [x]))
    decreases |mds|
  {
    if |mds| == 0 {
      assert sd.media + Reverse(RecoveredAll(mds)) == sd.media;
    } else {
      var rest := mds[1..];
      var r0 := Recovered(mds[0]);
      NestedLine(sd, x, MB.MediaLineValue(mds[0]), MB.BodyLines(mds[0]) + SectionLines(rest));
      SectionRoundTrip(sd, mds[0], SectionLines(rest));
      SectionsRoundTrip(sd, r0, rest);
      RecoveredAllTail(mds);
      Assoc(sd.media, Reverse(RecoveredAll(rest)), [r0]);
    }
  }

  // ---- The session lines ----

  /** An origin as its o= line reads back: the text fields non-null. */
  function RecoveredOrigin(o: Origin): Origin
  {
    Origin(Some(Str(o.username)), o.sessionId, o.sessionVersion, Some(Str(o.netType)), Some(Str(o.addrType)),
           Some(Str(o.unicastAddr)))
  }

  predicate OriginTokens(o: Origin)
  {
    Token(Str(o.username)) && Token(Str(o.netType)) && Token(Str(o.addrType)) && Token(Str(o.unicastAddr))
  }

  lemma OriginFieldsSplit(o: Origin)
    requires OriginTokens(o)
    ensures Split(SB.OriginValue(o), ' ') == SB.OriginFields(o)
  {
    var fields := SB.OriginFields(o);
    DecimalToken(o.sessionId);
    DecimalToken(o.sessionVersion);
    assert forall k | 0 <= k < |fields| :: ' ' !in fields[k];
    JoinSplit(fields, ' ');
  }

  lemma OriginLineParse(o: Origin)
    requires OriginTokens(o)
    ensures ParseOriginLine(SB.OriginValue(o)) == Ok(RecoveredOrigin(o))
  {
    OriginFieldsSplit(o);
    DecimalRoundTrip(o.sessionId, 0, 0xFFFF_FFFF_FFFF_FFFF);
    DecimalRoundTrip(o.sessionVersion, -0x8000_0000_0000_0000, 0x7FFF_FFFF_FFFF_FFFF);
  }

  /** A session line that updates the session. */
  lemma SessionCons(sd: SessionDescription, line: string, sd': SessionDescription, rest: seq<string>)
    requires SessionLine(sd, line) == Ok(Next(sd'))
    ensures ParseSession(sd, [line] + rest) == ParseSession(sd', rest)
  {
    assert ([line] + rest)[0] == line && ([line] + rest)[1..] == rest;
  }

  lemma VersionLine(sd: SessionDescription)
    ensures SessionLine(sd, LineText("v", "0")) == Ok(Next(sd.(version := 0)))
  {
    ParseLineText("v", "0");
    DecimalRoundTrip(0, 0, 0xFF);
    assert ToDecimal(0) == "0";
  }

  lemma OriginLine(sd: SessionDescription, o: Origin)
    requires OriginTokens(o)
    ensures SessionLine(sd, LineText("o", SB.OriginValue(o))) == Ok(Next(sd.(origin := Some(RecoveredOrigin(o)))))
  {
    ParseLineText("o", SB.OriginValue(o));
    OriginLineParse(o);
  }

  lemma NameLine(sd: SessionDescription, name: string)
    ensures SessionLine(sd, LineText("s", name)) == Ok(Next(sd.(sessionName := Some(name))))
  {
    ParseLineText("s", name);
  }

  lemma TimingLine(sd: SessionDescription, start: int64, end: int64)
    ensures SessionLine(sd, LineText("t", ToDecimal(start) + " " + ToDecimal(end)))
            == Ok(Next(sd.(startTime := start, endTime := end)))
  {
    var a, b := ToDecimal(start), ToDecimal(end);
    ParseLineText("t", a + " " + b);
    assert "t" != "v" && "t" != "o" && "t" != "s";
    DecimalField(start, -0x8000_0000_0000_0000, 0x7FFF_FFFF_FFFF_FFFF);
    DecimalField(end, -0x8000_0000_0000_0000, 0x7FFF_FFFF_FFFF_FFFF);
    TwoFields(a, b);
  }

  lemma SessionAttributeLine(sd: SessionDescription, text: string)
    ensures SessionLine(sd, LineText("a", text)) == Ok(Next(ParseSessionAttribute(sd, text)))
  {
    ParseLineText("a", text);
    assert "a" != "v" && "a" != "o" && "a" != "s" && "a" != "t" && "a" != "m";
  }

  /** The session as its six lines read back, before any section. */
  function AfterSessionLines(sd: SessionDescription): SessionDescription
    requires sd.origin.Some?
  {
    SessionDescription(0, Some(RecoveredOrigin(sd.origin.value)), Some(Str(sd.sessionName)), sd.startTime, sd.endTime,
                       Some("WMS " + Str(sd.webRtcMediaStreamId)), None, [])
  }

  lemma SessionHead(sd: SessionDescription, rest: seq<string>)
    requires sd.origin.Some? && sd.bundles.Some? && OriginTokens(sd.origin.value)
    ensures ParseSession(NewSessionDescription, SB.SessionLines(sd).value + rest) == ParseSession(AfterSessionLines(sd), rest)
  {
    var o := sd.origin.value;
    var l0, l1, l2 := LineText("v", "0"), LineText("o", SB.OriginValue(o)), LineText("s", Str(sd.sessionName));
    var l3 := LineText("t", ToDecimal(sd.startTime) + " " + ToDecimal(sd.endTime));
    var t4 := AttributeText("group", BundleGroup + Join(sd.bundles.value, " "));
    var t5 := AttributeText("msid-semantic", Wms + Str(sd.webRtcMediaStreamId));
    var r5 := [LineText("a", t5)] + rest;
    var r4 := [LineText("a", t4)] + r5;
    var r3 := [l3] + r4;
    var r2 := [l2] + r3;
    var r1 := [l1] + r2;
    assert SB.SessionLines(sd).value + rest == [l0] + r1;
    var s0 := NewSessionDescription.(version := 0);
    VersionLine(NewSessionDescription);
    SessionCons(NewSessionDescription, l0, s0, r1);
    var s1 := s0.(origin := Some(RecoveredOrigin(o)));
    OriginLine(s0, o);
    SessionCons(s0, l1, s1, r2);
    var s2 := s1.(sessionName := Some(Str(sd.sessionName)));
    NameLine(s1, Str(sd.sessionName));
    SessionCons(s1, l2, s2, r3);
    var s3 := s2.(startTime := sd.startTime, endTime := sd.endTime);
    TimingLine(s2, sd.startTime, sd.endTime);
    SessionCons(s2, l3, s3, r4);
    SessionAttributeLine(s3, t4);
    GroupBundleIgnored(s3, Join(sd.bundles.value, " "));
    SessionCons(s3, LineText("a", t4), s3, r5);
    var s5 := s3.(webRtcMediaStreamId := Some("WMS " + Str(sd.webRtcMediaStreamId)));
    SessionAttributeLine(s3, t5);
    MsidSemanticAsWritten(s3, Str(sd.webRtcMediaStreamId));
    SessionCons(s3, LineText("a", t5), s5, rest);
    assert s5 == AfterSessionLines(sd);
  }

  // ---- Every written line is free of line breaks ----

  predicate PlainLines(lines: seq<string>)
  {
    forall k | 0 <= k < |lines| :: Plain(lines[k])
  }

  lemma PlainLinesAppend(a: seq<string>, b: seq<string>)
    requires PlainLines(a) && PlainLines(b)
    ensures PlainLines(a + b)
  {
    assert forall k | |a| <= k < |a + b| :: (a + b)[k] == b[k - |a|];
  }

  lemma {:induction false} JoinPlain(parts: seq<string>, sep: string)
    requires PlainLines(parts) && Plain(sep)
    ensures Plain(Join(parts, sep))
  {
    if |parts| > 1 {
      JoinPlain(parts[1..], sep);
    }
  }

  lemma DecimalPlain(n: int)
    ensures Plain(ToDecimal(n))
  {
    DecimalToken(n);
  }

  lemma ModePlain(md: MediaDescription)
    ensures Plain(MB.ModeAttribute(md))
  {
  }

  lemma MediaLinePlain(md: MediaDescription)
    requires Printable(md)
    ensures Plain(LineText("m", MB.MediaLineValue(md)))
  {
    var pts := MB.PayloadTypeTexts(md.formats);
    forall k | 0 <= k < |pts|
      ensures Plain(pts[k])
    {
      DecimalPlain(md.formats[k].payloadType);
    }
    JoinPlain(pts, " ");
    DecimalPlain(md.port);
    JoinPlain([Str(md.media), ToDecimal(md.port), Str(md.protocol), Join(pts, " ")], " ");
  }

  /** An attribute line is plain when its name and value are. */
  lemma AttributeLinePlain(key: string, v: string)
    requires Plain(key) && Plain(v)
    ensures Plain(LineText("a", AttributeText(key, v)))
  {
  }

  lemma HeadPlain(md: MediaDescription)
    requires Printable(md)
    ensures PlainLines([LineText("c", MB.ConnectionValue(md.connection.value))] + MB.HeadAttributeLines(md))
  {
    ModePlain(md);
    var lines := [LineText("c", MB.ConnectionValue(md.connection.value))] + MB.HeadAttributeLines(md);
    AttributeLinePlain("mid", Str(md.mediaId));
    AttributeLinePlain("ice-ufrag", Str(md.ice.usernameFragment));
    AttributeLinePlain("ice-pwd", Str(md.ice.password));
    AttributeLinePlain("ice-options", Str(md.ice.options));
    AttributeLinePlain("fingerprint", Str(md.dtls.hashFunc) + " " + Str(md.dtls.fingerprint));
    AttributeLinePlain("setup", Str(md.dtls.setup));
    assert Plain(MB.RtcpMux);
  }

  lemma {:induction false} FeedbackLinesPlain(pt: int32, caps: seq<string>)
    requires PlainLines(caps)
    ensures PlainLines(MB.FeedbackLines(pt, caps))
    decreases |caps|
  {
    if |caps| > 0 {
      DecimalPlain(pt);
      FeedbackLinesPlain(pt, caps[1..]);
      PlainLinesAppend([LineText("a", AttributeText("rtcp-fb", ToDecimal(pt) + " " + caps[0]))], MB.FeedbackLines(pt, caps[1..]));
    }
  }

  lemma FormatLinesPlain(f: MediaFormat)
    requires PrintableFormat(f)
    ensures PlainLines(MB.FormatLines(f))
  {
    DecimalPlain(f.payloadType);
    DecimalPlain(f.clockRate);
    JoinPlain(MB.EncodingFields(f), "/");
    var a := [LineText("a", AttributeText("rtpmap", MB.RtpMapValue(f)))];
    var b := if f.formatParameters.Some? then [LineText("a", AttributeText("fmtp", ToDecimal(f.payloadType) + " " + f.formatParameters.value))] else [];
    var c := if f.rtcpFeedback.Some? then MB.FeedbackLines(f.payloadType, f.rtcpFeedback.value) else [];
    if f.rtcpFeedback.Some? {
      FeedbackLinesPlain(f.payloadType, f.rtcpFeedback.value);
    }
    PlainLinesAppend(a, b);
    PlainLinesAppend(a + b, c);
  }

  lemma {:induction false} FormatsLinesPlain(fs: seq<MediaFormat>)
    requires forall k | 0 <= k < |fs| :: PrintableFormat(fs[k])
    ensures PlainLines(MB.FormatsLines(fs))
    decreases |fs|
  {
    if |fs| > 0 {
      FormatLinesPlain(fs[0]);
      FormatsLinesPlain(fs[1..]);
      PlainLinesAppend(MB.FormatLines(fs[0]), MB.FormatsLines(fs[1..]));
    }
  }

  lemma CandidatePlain(c: IceCandidate)
    requires CandidateTokens(c)
    ensures Plain(MB.CandidateValue(c))
  {
    DecimalPlain(c.foundation);
    DecimalPlain(c.componentId);
    DecimalPlain(c.priority);
    DecimalPlain(c.port);
    JoinPlain(MB.CandidateFields(c), " ");
  }

  lemma {:induction false} CandidateLinesPlain(cs: seq<IceCandidate>)
    requires forall k | 0 <= k < |cs| :: CandidateTokens(cs[k])
    ensures PlainLines(MB.CandidateLines(cs))
    decreases |cs|
  {
    if |cs| > 0 {
      CandidatePlain(cs[0]);
      CandidateLinesPlain(cs[1..]);
      PlainLinesAppend([LineText("a", AttributeText("candidate", MB.CandidateValue(cs[0])))], MB.CandidateLines(cs[1..]));
    }
  }

  lemma SourcePlain(md: MediaDescription)
    requires Printable(md)
    ensures PlainLines(MB.SourceLines(md))
  {
    var d := ToDecimal(md.source.ssrc);
    DecimalPlain(md.source.ssrc);
    AttributeLinePlain("ssrc", d + " " + AttributeText("cname", Str(md.source.cname)));
    AttributeLinePlain("ssrc", d + " " + AttributeText("msid", Str(md.source.msId)) + " " + Str(md.source.msIdAppData));
  }

  lemma BodyPlain(md: MediaDescription)
    requires Printable(md)
    ensures PlainLines(MB.BodyLines(md))
  {
    var h := [LineText("c", MB.ConnectionValue(md.connection.value))] + MB.HeadAttributeLines(md);
    HeadPlain(md);
    FormatsLinesPlain(md.formats);
    SourcePlain(md);
    CandidateLinesPlain(md.candidates);
    PlainLinesAppend(h, MB.FormatsLines(md.formats));
    PlainLinesAppend(h + MB.FormatsLines(md.formats), MB.SourceLines(md));
    PlainLinesAppend(h + MB.FormatsLines(md.formats) + MB.SourceLines(md), MB.CandidateLines(md.candidates));
    PlainLinesAppend(h + MB.FormatsLines(md.formats) + MB.SourceLines(md) + MB.CandidateLines(md.candidates),
                     [LineText("a", MB.EndOfCandidates)]);
  }

  lemma {:induction false} SectionLinesPlain(mds: seq<MediaDescription>)
    requires forall k | 0 <= k < |mds| :: mds[k].connection.Some? && Printable(mds[k])
    ensures PlainLines(SectionLines(mds))
    decreases |mds|
  {
    if |mds| > 0 {
      MediaLinePlain(mds[0]);
      BodyPlain(mds[0]);
      SectionLinesPlain(mds[1..]);
      PlainLinesAppend(MB.BodyLines(mds[0]), SectionLines(mds[1..]));
      PlainLinesAppend([LineText("m", MB.MediaLineValue(mds[0]))], MB.BodyLines(mds[0]) + SectionLines(mds[1..]));
    }
  }

  lemma SessionLinesPlain(sd: SessionDescription)
    requires sd.origin.Some? && sd.bundles.Some? && OriginTokens(sd.origin.value)
    requires Plain(Str(sd.sessionName)) && PlainLines(sd.bundles.value) && Plain(Str(sd.webRtcMediaStreamId))
    ensures PlainLines(SB.SessionLines(sd).value)
  {
    var o := sd.origin.value;
    DecimalPlain(o.sessionId);
    DecimalPlain(o.sessionVersion);
    JoinPlain(SB.OriginFields(o), " ");
    DecimalPlain(sd.startTime);
    DecimalPlain(sd.endTime);
    JoinPlain(sd.bundles.value, " ");
    AttributeLinePlain("group", BundleGroup + Join(sd.bundles.value, " "));
    AttributeLinePlain("msid-semantic", Wms + Str(sd.webRtcMediaStreamId));
  }

  /** Plain lines are what the line reader splits off. */
  lemma PlainNoLineBreak(lines: seq<string>)
    requires PlainLines(lines)
    ensures forall k | 0 <= k < |lines| :: NoLineBreak(lines[k])
  {
    forall k | 0 <= k < |lines|
      ensures NoLineBreak(lines[k])
    {
      assert Plain(lines[k]);
    }
  }

  // ---- The whole description ----

  /** A description whose text reads back: an origin and a bundle list
      (without them `Build` throws), no line breaks inside fields, space-free
      origin fields, and printable sections. */
  predicate PrintableSession(sd: SessionDescription)
  {
    && sd.origin.Some? && sd.bundles.Some? && OriginTokens(sd.origin.value)
    && Plain(Str(sd.sessionName)) && PlainLines(sd.bundles.value) && Plain(Str(sd.webRtcMediaStreamId))
    && forall k | 0 <= k < |sd.media| :: sd.media[k].connection.Some? && Printable(sd.media[k])
  }

  /** The text of the sections is their lines, terminated. */
  lemma {:induction false} BuildMediaText(mds: seq<MediaDescription>)
    requires forall k | 0 <= k < |mds| :: mds[k].connection.Some?
    ensures SB.BuildMedia(mds) == Ok(Terminated(SectionLines(mds)))
    decreases |mds|
  {
    if |mds| > 0 {
      var m := [LineText("m", MB.MediaLineValue(mds[0]))];
      BuildMediaText(mds[1..]);
      assert MB.Build(mds[0]) == Ok(Terminated(m + MB.BodyLines(mds[0])));
      Assoc(m, MB.BodyLines(mds[0]), SectionLines(mds[1..]));
      TerminatedAppend(m + MB.BodyLines(mds[0]), SectionLines(mds[1..]));
    } else {
      assert Terminated([]) == "";
    }
  }

  /** An m= line among the session lines opens a section that takes
      every line after it. */
  lemma MediaLineOpens(sd: SessionDescription, v: string, rest: seq<string>)
    ensures ParseSession(sd, [LineText("m", v)] + rest) == ParseMediaSection(sd, v, rest)
  {
    ParseLineText("m", v);
    assert "m" != "v" && "m" != "o" && "m" != "s" && "m" != "t";
    assert SessionLine(sd, LineText("m", v)) == Ok(OpenMedia(v));
    assert ([LineText("m", v)] + rest)[1..] == rest;
  }

  /** After the session lines, the first m= line opens a section in which
      all the others nest. */
  lemma SessionSections(sd: SessionDescription, mds: seq<MediaDescription>)
    requires forall k | 0 <= k < |mds| :: mds[k].connection.Some? && Printable(mds[k])
    ensures ParseSession(sd, SectionLines(mds)) == Ok(sd.(media := sd.media + Reverse(RecoveredAll(mds))))
  {
    if |mds| == 0 {
      assert sd.media + Reverse(RecoveredAll(mds)) == sd.media;
    } else {
      var r0 := Recovered(mds[0]);
      MediaLineOpens(sd, MB.MediaLineValue(mds[0]), MB.BodyLines(mds[0]) + SectionLines(mds[1..]));
      SectionRoundTrip(sd, mds[0], SectionLines(mds[1..]));
      SectionsRoundTrip(sd, r0, mds[1..]);
      RecoveredAllTail(mds);
      Assoc(sd.media, Reverse(RecoveredAll(mds[1..])), [r0]);
    }
  }

  /** The lines the text of a printable description is read as. */
  lemma BuildLinesRead(sd: SessionDescription)
    requires PrintableSession(sd)
    ensures SB.Build(sd).Ok?
    ensures Lines(SB.Build(sd).value) == SB.SessionLines(sd).value + SectionLines(sd.media)
  {
    var head := SB.SessionLines(sd).value;
    BuildMediaText(sd.media);
    TerminatedAppend(head, SectionLines(sd.media));
    SessionLinesPlain(sd);
    SectionLinesPlain(sd.media);
    PlainLinesAppend(head, SectionLines(sd.media));
    PlainNoLineBreak(head + SectionLines(sd.media));
    ReadTerminated(head + SectionLines(sd.media));
  }

  /** The sections of a description that has none yet are those read. */
  lemma FreshSessionSections(sd: SessionDescription, mds: seq<MediaDescription>)
    requires sd.media == []
    requires forall k | 0 <= k < |mds| :: mds[k].connection.Some? && Printable(mds[k])
    ensures ParseSession(sd, SectionLines(mds)) == Ok(sd.(media := Reverse(RecoveredAll(mds))))
  {
    SessionSections(sd, mds);
    assert sd.media + Reverse(RecoveredAll(mds)) == Reverse(RecoveredAll(mds));
  }

  /** A built description parses back: version 0, the origin, name and
      timing as written, the stream id with "WMS " still in front, no
      bundle list, and the sections read back in reverse order. */
  lemma BuildParse(sd: SessionDescription)
    requires PrintableSession(sd)
    ensures SB.Build(sd).Ok?
    ensures Parse(SB.Build(sd).value) == Ok(AfterSessionLines(sd).(media := Reverse(RecoveredAll(sd.media))))
  {
    var lines := SB.SessionLines(sd).value + SectionLines(sd.media);
    BuildLinesRead(sd);
    assert Parse(SB.Build(sd).value) == ParseSession(NewSessionDescription, lines);
    SessionHead(sd, SectionLines(sd.media));
    var s6 := AfterSessionLines(sd);
    assert s6.media == [];
    FreshSessionSections(s6, sd.media);
  }
}
