/** `RtcpClient`: the split of a received compound datagram into packets
    and the layout of an outgoing compound datagram. The UDP socket is left
    out: a datagram is its bytes and the sender's endpoint. */
module RtcpClient {
  import opened Results
  import opened Bytes
  import opened Net
  import opened Rtcp
  import opened RtcpParser
  import W = RtcpSerializer
  import RtcpCodec
  import SdesCodec

  /** A parsed packet tagged with the datagram's sender (`RemoteEndPoint`). */
  datatype Received = Received(packet: RtcpPacket, remote: Endpoint)

  /** Every packet of a list, tagged with one sender. */
  function Tagged(packets: seq<RtcpPacket>, remote: Endpoint): (r: seq<Received>)
    ensures |r| == |packets|
  {
    if |packets| == 0 then [] else [Received(packets[0], remote)] + Tagged(packets[1..], remote)
  }

  /** Tagging keeps the packets and their order. */
  lemma {:induction false} TaggedAt(packets: seq<RtcpPacket>, remote: Endpoint, i: nat)
    requires i < |packets|
    ensures Tagged(packets, remote)[i] == Received(packets[i], remote)
    decreases i
  {
    if i > 0 {
      TaggedAt(packets[1..], remote, i - 1);
    }
  }

  /** One packet parsed from the start of a slice, under the chosen reading. */
  function ParseOne(v: Reading, b: Bytes): Result<RtcpPacket>
  {
    if v == AsWritten then ParseRtcpPacket(b) else ParseRtcpPacketAtCursor(b)
  }

  /** The parser under a reading, as a value the receive loop is given. */
  function Parser(v: Reading): Bytes -> Result<RtcpPacket>
  {
    b => ParseOne(v, b)
  }

  /** The loop of `ReceiveAsync` from offset `read`: parse the packet that
      starts there, advance by the size the parsed packet announces, tag it
      with the sender. Any exception discards the whole datagram. The packet
      parser is a parameter, so that both readings share one loop. */
  function Split(parse: Bytes -> Result<RtcpPacket>, buf: Bytes, read: nat, remote: Endpoint): (r: Result<seq<Received>>)
    ensures r.Ok? ==> forall i :: 0 <= i < |r.value| ==> r.value[i].remote == remote
    decreases |buf| - read
  {
    if read >= |buf| then Ok([])
    else
      var p :- parse(buf[read..]);
      var size :- AnnouncedSize(p);
      var rest :- Split(parse, buf, read + size, remote);
      Ok([Received(p, remote)] + rest)
  }

  /** `ReceiveAsync` on one datagram, with the parser as written. */
  function Receive(buf: Bytes, remote: Endpoint): Result<seq<Received>>
  {
    Split(Parser(AsWritten), buf, 0, remote)
  }

  /** The buffer length `SendAsync` allocates: the announced sizes summed. */
  function TotalSize(packets: seq<RtcpPacket>): (r: Result<nat>)
    ensures r.Ok? <==> forall i :: 0 <= i < |packets| ==> AnnouncedSize(packets[i]).Ok?
    ensures r.Fail? ==> r.error == NullReference
  {
    if |packets| == 0 then Ok(0)
    else
      var size :- AnnouncedSize(packets[0]);
      var rest :- TotalSize(packets[1..]);
      Ok(size + rest)
  }

  /** The serializer under a writing, as a value the send loop is given. */
  function Serializer(w: W.Writing): (RtcpPacket, Bytes) -> Result<Bytes>
  {
    (p, b) => W.Serialize(w, p, b)
  }

  /** The loop of `SendAsync` from offset `idx`: each packet is serialized
      into the span starting at `idx`, then `idx` advances by its size. The
      packet serializer is a parameter. */
  function WriteAll(serialize: (RtcpPacket, Bytes) -> Result<Bytes>, buf: Bytes, idx: nat, packets: seq<RtcpPacket>)
    : Result<Bytes>
    decreases |packets|
  {
    if |packets| == 0 then Ok(buf)
    else if idx > |buf| then Fail(OutOfRange)
    else
      var span :- serialize(packets[0], buf[idx..]);
      var size :- AnnouncedSize(packets[0]);
      WriteAll(serialize, buf[..idx] + span, idx + size, packets[1..])
  }

  /** The datagram `SendAsync` hands to the socket. */
  function Send(w: W.Writing, packets: seq<RtcpPacket>): (r: Result<Bytes>)
    ensures r.Ok? ==> TotalSize(packets).Ok?
  {
    var total :- TotalSize(packets);
    WriteAll(Serializer(w), Zeros(total), 0, packets)
  }

  /** Every packet of the list has an encoding on its own. */
  predicate Encodable(w: W.Writing, packets: seq<RtcpPacket>)
  {
    forall i :: 0 <= i < |packets| ==> W.Encode(w, packets[i]).Ok?
  }

  /** The packets' own encodings, back to back: the reference layout of a
      compound datagram. */
  function Images(w: W.Writing, packets: seq<RtcpPacket>): Bytes
    requires Encodable(w, packets)
  {
    if |packets| == 0 then [] else W.Encode(w, packets[0]).value + Images(w, packets[1..])
  }

  /** An encoding fills exactly the size its packet announces. */
  lemma EncodeLength(w: W.Writing, p: RtcpPacket)
    requires W.Encode(w, p).Ok?
    ensures AnnouncedSize(p).Ok? && |W.Encode(w, p).value| == AnnouncedSize(p).value
  {
  }

  /** A receiver report's serialization: header and SSRC at the span's
      start, then the report blocks from offset 8. */
  lemma SerializeReceiverReportSteps(w: W.Writing, padding: bool, ssrc: uint32, reports: seq<ReceptionReport>,
                                     buf: Bytes, hs: Bytes)
    requires 8 <= |buf|
    requires hs == W.Header(padding, |reports|, ReceiverReportType,
                            LengthWords(ReceiverReport(padding, ssrc, reports)).value) + BE32(ssrc)
    ensures W.Serialize(w, ReceiverReport(padding, ssrc, reports), buf) == W.WriteReports(w, hs + buf[8..], 8, reports)
  {
    W.WriteFromStart(buf, hs);
    assert hs + buf[8..] + [] == hs + buf[8..];
  }

  /** Report blocks written over a buffer leave whatever follows it alone. */
  lemma WriteReportsWider(w: W.Writing, b: Bytes, tail: Bytes, reports: seq<ReceptionReport>)
    requires 8 + 24 * |reports| <= |b|
    ensures W.WriteReports(w, b, 8, reports).Ok?
    ensures W.WriteReports(w, b + tail, 8, reports) == Ok(W.WriteReports(w, b, 8, reports).value + tail)
  {
    var m := 24 * |reports|;
    var img := W.ReportsImage(w, reports);
    W.WriteReportsImage(w, b, 8, reports);
    W.WriteReportsImage(w, b + tail, 8, reports);
    DropConcat(b, tail, 8);
    DropConcat(b, tail, 8 + m);
    AssocTail(b[..8], img, b[8 + m..], tail);
  }

  /** Report blocks that fit a buffer land the same way in any extension of it. */
  lemma WriteReportsExtends(w: W.Writing, b: Bytes, tail: Bytes, reports: seq<ReceptionReport>,
                            s: Result<Bytes>, t: Result<Bytes>)
    requires s == W.WriteReports(w, b, 8, reports) && s.Ok?
    requires t == W.WriteReports(w, b + tail, 8, reports)
    ensures t == Ok(s.value + tail)
  {
    W.WriteReportsLength(w, b, 8, reports);
    if |reports| > 0 {
      WriteReportsWider(w, b, tail, reports);
    }
  }

  /** A receiver report serialized into a span leaves whatever follows the
      span alone. */
  lemma SerializeReceiverReportExtends(w: W.Writing, padding: bool, ssrc: uint32, reports: seq<ReceptionReport>,
                                       buf: Bytes, tail: Bytes)
    requires W.Serialize(w, ReceiverReport(padding, ssrc, reports), buf).Ok?
    ensures var p := ReceiverReport(padding, ssrc, reports);
            W.Serialize(w, p, buf + tail) == Ok(W.Serialize(w, p, buf).value + tail)
  {
    var p := ReceiverReport(padding, ssrc, reports);
    var hs := W.Header(padding, |reports|, ReceiverReportType, LengthWords(p).value) + BE32(ssrc);
    var s := W.Serialize(w, p, buf);
    var t := W.Serialize(w, p, buf + tail);
    assert 8 <= |buf|;
    assert s == W.WriteReports(w, hs + buf[8..], 8, reports) by {
      SerializeReceiverReportSteps(w, padding, ssrc, reports, buf, hs);
    }
    assert t == W.WriteReports(w, (hs + buf[8..]) + tail, 8, reports) by {
      SerializeReceiverReportSteps(w, padding, ssrc, reports, buf + tail, hs);
      ReplaceHead(hs, buf, tail, 8);
    }
    WriteReportsExtends(w, hs + buf[8..], tail, reports, s, t);
  }

  /** A source description serialized into a span leaves whatever follows
      the span alone. */
  lemma SerializeSourceDescriptionExtends(w: W.Writing, padding: bool, chunks: seq<SdesChunk>, buf: Bytes, tail: Bytes)
    requires W.Serialize(w, SourceDescription(padding, chunks), buf).Ok?
    ensures var p := SourceDescription(padding, chunks);
            W.Serialize(w, p, buf + tail) == Ok(W.Serialize(w, p, buf).value + tail)
  {
    var p := SourceDescription(padding, chunks);
    var data := W.Header(padding, |chunks|, SourceDescriptionType, LengthWords(p).value)
                + W.ChunksImage(w, chunks);
    W.SourceDescriptionWrites(w, padding, chunks, buf);
    W.SourceDescriptionWrites(w, padding, chunks, buf + tail);
    assert |data| <= |buf|;
    W.WriteFromStart(buf, data);
    W.WriteFromStart(buf + tail, data);
    ReplaceHead(data, buf, tail, |data|);
    assert data + (buf + tail)[|data|..] + [] == (data + buf[|data|..] + []) + tail;
  }

  /** Serialization touches nothing past the span it succeeds on: a longer
      span gets the same bytes, followed by its untouched rest. */
  lemma SerializeExtends(w: W.Writing, p: RtcpPacket, buf: Bytes, tail: Bytes)
    requires W.Serialize(w, p, buf).Ok?
    ensures W.Serialize(w, p, buf + tail) == Ok(W.Serialize(w, p, buf).value + tail)
  {
    if p.ReceiverReport? {
      SerializeReceiverReportExtends(w, p.padding, p.ssrc, p.reports, buf, tail);
    } else if p.SourceDescription? {
      SerializeSourceDescriptionExtends(w, p.padding, p.chunks, buf, tail);
    }
  }

  /** The tail of an encodable list is encodable. */
  lemma EncodableTail(w: W.Writing, packets: seq<RtcpPacket>)
    requires |packets| > 0 && Encodable(w, packets)
    ensures Encodable(w, packets[1..])
  {
    forall i | 0 <= i < |packets[1..]|
      ensures W.Encode(w, packets[1..][i]).Ok?
    {
      assert packets[1..][i] == packets[i + 1];
    }
  }

  /** The packets' encodings fill exactly the buffer `SendAsync` allocates. */
  lemma {:induction false} ImagesLength(w: W.Writing, packets: seq<RtcpPacket>)
    requires Encodable(w, packets)
    ensures TotalSize(packets).Ok? && |Images(w, packets)| == TotalSize(packets).value
    decreases |packets|
  {
    if |packets| > 0 {
      EncodeLength(w, packets[0]);
      EncodableTail(w, packets);
      ImagesLength(w, packets[1..]);
    }
  }

  /** One turn of the send loop, given what the first packet serializes to. */
  lemma WriteAllUnfold(serialize: (RtcpPacket, Bytes) -> Result<Bytes>, buf: Bytes, idx: nat, packets: seq<RtcpPacket>,
                       span: Bytes, size: nat)
    requires |packets| > 0 && idx <= |buf|
    requires serialize(packets[0], buf[idx..]) == Ok(span) && AnnouncedSize(packets[0]) == Ok(size)
    ensures WriteAll(serialize, buf, idx, packets) == WriteAll(serialize, buf[..idx] + span, idx + size, packets[1..])
  {
  }

  /** An encoding serialized into a longer zero-filled span: the encoding,
      then the zeros it did not cover. */
  lemma SerializeIntoZeros(w: W.Writing, p: RtcpPacket, e: Bytes, k2: nat)
    requires W.Encode(w, p) == Ok(e)
    ensures AnnouncedSize(p) == Ok(|e|)
    ensures W.Serialize(w, p, Zeros(|e| + k2)) == Ok(e + Zeros(k2))
  {
    EncodeLength(w, p);
    assert W.Serialize(w, p, Zeros(|e|)) == Ok(e);
    ZerosSplit(|e|, k2);
    SerializeExtends(w, p, Zeros(|e|), Zeros(k2));
  }

  /** One turn of the send loop over a zero-filled remainder: the first
      packet's encoding lands at the cursor and the cursor moves past it. */
  lemma WriteAllStep(serialize: (RtcpPacket, Bytes) -> Result<Bytes>, pre: Bytes, packets: seq<RtcpPacket>,
                     e: Bytes, k: nat, k2: nat)
    requires |packets| > 0 && k == |e| + k2
    requires serialize(packets[0], Zeros(k)) == Ok(e + Zeros(k2)) && AnnouncedSize(packets[0]) == Ok(|e|)
    ensures WriteAll(serialize, pre + Zeros(k), |pre|, packets)
            == WriteAll(serialize, (pre + e) + Zeros(k2), |pre + e|, packets[1..])
  {
    var buf := pre + Zeros(k);
    assert buf[..|pre|] == pre && buf[|pre|..] == Zeros(k);
    WriteAllUnfold(serialize, buf, |pre|, packets, e + Zeros(k2), |e|);
    Assoc(pre, e, Zeros(k2));
  }

  /** The encodings of a non-empty list: the first, then the rest's. */
  lemma ImagesCons(w: W.Writing, pre: Bytes, packets: seq<RtcpPacket>)
    requires |packets| > 0 && Encodable(w, packets)
    ensures Encodable(w, packets[1..])
    ensures (pre + W.Encode(w, packets[0]).value) + Images(w, packets[1..]) == pre + Images(w, packets)
  {
    EncodableTail(w, packets);
    Assoc(pre, W.Encode(w, packets[0]).value, Images(w, packets[1..]));
  }

  /** The send loop over a zero-filled remainder writes the packets'
      encodings back to back. */
  lemma {:induction false} WriteAllImages(w: W.Writing, pre: Bytes, k: nat, packets: seq<RtcpPacket>)
    requires Encodable(w, packets) && k == |Images(w, packets)|
    ensures WriteAll(Serializer(w), pre + Zeros(k), |pre|, packets) == Ok(pre + Images(w, packets))
    decreases |packets|
  {
    if |packets| == 0 {
      assert pre + Zeros(k) == pre + Images(w, packets);
    } else {
      var e := W.Encode(w, packets[0]).value;
      ImagesCons(w, pre, packets);
      var k2 := |Images(w, packets[1..])|;
      assert Serializer(w)(packets[0], Zeros(k)) == Ok(e + Zeros(k2)) && AnnouncedSize(packets[0]) == Ok(|e|) by {
        SerializeIntoZeros(w, packets[0], e, k2);
      }
      WriteAllStep(Serializer(w), pre, packets, e, k, k2);
      WriteAllImages(w, pre + e, k2, packets[1..]);
    }
  }

  /** `SendAsync` sends the packets' own encodings back to back; a packet
      without an announced size (a goodbye without a reason) fails the whole
      send with a null reference. */
  lemma SendLayout(w: W.Writing, packets: seq<RtcpPacket>)
    ensures Encodable(w, packets) ==> Send(w, packets) == Ok(Images(w, packets))
    ensures (exists i :: 0 <= i < |packets| && AnnouncedSize(packets[i]).Fail?)
            ==> Send(w, packets) == Fail(NullReference)
  {
    if Encodable(w, packets) {
      ImagesLength(w, packets);
      WriteAllImages(w, [], TotalSize(packets).value, packets);
      assert [] + Zeros(TotalSize(packets).value) == Zeros(TotalSize(packets).value);
      assert [] + Images(w, packets) == Images(w, packets);
    }
  }

  /** A packet both ends carry intact up to the known defects: with the
      corrected writer and the cursor reading, a receiver report of at most
      31 blocks whose losses fit 24 bits, or a source description of at
      most 31 valid chunks that fits the length field; with the writer and
      parser as written, a receiver report of at most 31 blocks. */
  predicate Carried(v: Reading, w: W.Writing, p: RtcpPacket)
  {
    if v == AtCursor && w == W.Corrected then
      || (&& p.ReceiverReport? && |p.reports| < 32
          && forall i :: 0 <= i < |p.reports| ==> p.reports[i].cumulativeLost < 0x100_0000)
      || (&& p.SourceDescription? && |p.chunks| < 32 && SdesRawLength(p.chunks) < 4 * TWO16
          && SdesCodec.ValidChunks(p.chunks))
    else
      v == AsWritten && w == W.AsWritten && p.ReceiverReport? && |p.reports| < 32
  }

  /** What the receiving end makes of a carried packet: itself, except that
      as written a receiver report comes back with its header word as the
      SSRC and every cumulative loss shifted right by eight bits. */
  function ReadBack(v: Reading, w: W.Writing, p: RtcpPacket): RtcpPacket
  {
    if v == AsWritten && p.ReceiverReport? then
      var header := W.Header(p.padding, |p.reports|, ReceiverReportType, LengthWords(p).value);
      ReceiverReport(p.padding, U32At(header + BE32(p.ssrc), 0), RtcpCodec.ReportsAsRead(w, p.reports))
    else p
  }

  /** `ReadBack` applied to every packet of a list. */
  function ReadBacks(v: Reading, w: W.Writing, packets: seq<RtcpPacket>): (r: seq<RtcpPacket>)
    ensures |r| == |packets|
    ensures forall i :: 0 <= i < |r| ==> r[i] == ReadBack(v, w, packets[i])
  {
    seq(|packets|, i requires 0 <= i < |packets| => ReadBack(v, w, packets[i]))
  }

  /** A carried packet's encoding, followed by anything, parses back to its
      read-back form, which announces exactly the encoding's size. */
  lemma ReadBackOne(v: Reading, w: W.Writing, p: RtcpPacket, tail: Bytes)
    requires Carried(v, w, p)
    ensures W.Encode(w, p).Ok?
    ensures ParseOne(v, W.Encode(w, p).value + tail) == Ok(ReadBack(v, w, p))
    ensures AnnouncedSize(ReadBack(v, w, p)) == Ok(|W.Encode(w, p).value|)
  {
    if v == AsWritten {
      assert LengthWords(p).value == 1 + 6 * |p.reports|;
      RtcpCodec.AsWrittenReceiverReport(p.padding, p.ssrc, p.reports, tail);
      ReportSizeExact(p);
      ReportSizeExact(ReadBack(v, w, p));
    } else if p.ReceiverReport? {
      RtcpCodec.RoundTripReceiverReport(p.padding, p.ssrc, p.reports, tail);
    } else {
      SdesCodec.RoundTripSourceDescription(p.padding, p.chunks, tail);
    }
    EncodeLength(w, p);
  }

  /** One turn of the receive loop, given the packet found at the cursor:
      its bytes `e` start there and it announces exactly their size. */
  lemma SplitUnfold(parse: Bytes -> Result<RtcpPacket>, buf: Bytes, idx: nat, remote: Endpoint, p: RtcpPacket, e: Bytes, imgs: Bytes,
                    rest: seq<Received>)
    requires idx <= |buf| && buf[idx..] == e + imgs && |e| > 0
    requires parse(e + imgs) == Ok(p) && AnnouncedSize(p) == Ok(|e|)
    requires Split(parse, buf, idx + |e|, remote) == Ok(rest)
    ensures Split(parse, buf, idx, remote) == Ok([Received(p, remote)] + rest)
  {
  }

  /** Byte strings back to back. */
  function Concat(segs: seq<Bytes>): Bytes
  {
    if |segs| == 0 then [] else segs[0] + Concat(segs[1..])
  }

  /** A buffer suffix cut into segments such that each segment, followed by
      the rest, parses to the matching packet, which announces exactly the
      segment's size. */
  predicate Framed(parse: Bytes -> Result<RtcpPacket>, segs: seq<Bytes>, packets: seq<RtcpPacket>)
  {
    && |segs| == |packets|
    && forall i :: 0 <= i < |segs| ==>
         && |segs[i]| > 0
         && parse(segs[i] + Concat(segs[i + 1..])) == Ok(packets[i])
         && AnnouncedSize(packets[i]) == Ok(|segs[i]|)
  }

  /** Framing survives dropping the first segment. */
  lemma FramedTail(parse: Bytes -> Result<RtcpPacket>, segs: seq<Bytes>, packets: seq<RtcpPacket>)
    requires |segs| > 0 && Framed(parse, segs, packets)
    ensures Framed(parse, segs[1..], packets[1..])
  {
    forall i | 0 <= i < |segs| - 1
      ensures && |segs[1..][i]| > 0
              && parse(segs[1..][i] + Concat(segs[1..][i + 1..])) == Ok(packets[1..][i])
              && AnnouncedSize(packets[1..][i]) == Ok(|segs[1..][i]|)
    {
      assert segs[1..][i + 1..] == segs[i + 2..];
      assert segs[1..][i] == segs[i + 1] && packets[1..][i] == packets[i + 1];
    }
  }

  /** The receive loop over a framed suffix yields the framed packets, in
      order, each tagged with the sender. */
  lemma {:induction false} SplitFramed(parse: Bytes -> Result<RtcpPacket>, buf: Bytes, idx: nat, segs: seq<Bytes>, packets: seq<RtcpPacket>,
                                       remote: Endpoint)
    requires idx <= |buf| && buf[idx..] == Concat(segs) && Framed(parse, segs, packets)
    ensures Split(parse, buf, idx, remote) == Ok(Tagged(packets, remote))
    decreases |segs|
  {
    if |segs| == 0 {
      assert |buf[idx..]| == 0;
    } else {
      FramedTail(parse, segs, packets);
      SuffixSplit(buf, idx, segs[0], Concat(segs[1..]));
      SplitFramed(parse, buf, idx + |segs[0]|, segs[1..], packets[1..], remote);
      SplitUnfold(parse, buf, idx, remote, packets[0], segs[0], Concat(segs[1..]), Tagged(packets[1..], remote));
    }
  }

  /** The packets' encodings, one segment each. */
  function Encodings(w: W.Writing, packets: seq<RtcpPacket>): (r: seq<Bytes>)
    requires Encodable(w, packets)
    ensures |r| == |packets|
    ensures forall i :: 0 <= i < |r| ==> r[i] == W.Encode(w, packets[i]).value
  {
    seq(|packets|, i requires 0 <= i < |packets| => W.Encode(w, packets[i]).value)
  }

  /** Back-to-back encodings are the encodings' segments joined. */
  lemma {:induction false} ImagesConcat(w: W.Writing, packets: seq<RtcpPacket>)
    requires Encodable(w, packets)
    ensures Images(w, packets) == Concat(Encodings(w, packets))
    decreases |packets|
  {
    if |packets| > 0 {
      EncodableTail(w, packets);
      ImagesConcat(w, packets[1..]);
      assert Encodings(w, packets)[1..] == Encodings(w, packets[1..]);
    }
  }

  /** A list of carried packets is encodable. */
  lemma CarriedEncodable(v: Reading, w: W.Writing, packets: seq<RtcpPacket>)
    requires forall i :: 0 <= i < |packets| ==> Carried(v, w, packets[i])
    ensures Encodable(w, packets)
  {
    forall i | 0 <= i < |packets|
      ensures W.Encode(w, packets[i]).Ok?
    {
      ReadBackOne(v, w, packets[i], []);
    }
  }

  /** The encodings of carried packets frame their read-back forms. */
  lemma CarriedFramed(v: Reading, w: W.Writing, packets: seq<RtcpPacket>)
    requires forall i :: 0 <= i < |packets| ==> Carried(v, w, packets[i])
    ensures Encodable(w, packets)
    ensures Framed(Parser(v), Encodings(w, packets), ReadBacks(v, w, packets))
  {
    CarriedEncodable(v, w, packets);
    var segs := Encodings(w, packets);
    forall i | 0 <= i < |segs|
      ensures && |segs[i]| > 0
              && Parser(v)(segs[i] + Concat(segs[i + 1..])) == Ok(ReadBacks(v, w, packets)[i])
              && AnnouncedSize(ReadBacks(v, w, packets)[i]) == Ok(|segs[i]|)
    {
      ReadBackOne(v, w, packets[i], Concat(segs[i + 1..]));
    }
  }

  /** The receive loop over the back-to-back encodings of carried packets
      yields their read-back forms, in order, each tagged with the sender. */
  lemma SplitImages(v: Reading, w: W.Writing, packets: seq<RtcpPacket>, remote: Endpoint)
    requires forall i :: 0 <= i < |packets| ==> Carried(v, w, packets[i])
    ensures Encodable(w, packets)
    ensures Split(Parser(v), Images(w, packets), 0, remote) == Ok(Tagged(ReadBacks(v, w, packets), remote))
  {
    CarriedFramed(v, w, packets);
    ImagesConcat(w, packets);
    SplitFramed(Parser(v), Images(w, packets), 0, Encodings(w, packets), ReadBacks(v, w, packets), remote);
  }

  /** With the corrected writer and the cursor reading, a compound datagram
      of carried packets comes back as exactly those packets, in order,
      tagged with the sender. */
  lemma CompoundRoundTrip(packets: seq<RtcpPacket>, remote: Endpoint)
    requires forall i :: 0 <= i < |packets| ==> Carried(AtCursor, W.Corrected, packets[i])
    ensures Send(W.Corrected, packets).Ok?
    ensures Split(Parser(AtCursor), Send(W.Corrected, packets).value, 0, remote) == Ok(Tagged(packets, remote))
  {
    SplitImages(AtCursor, W.Corrected, packets, remote);
    SendLayout(W.Corrected, packets);
    assert ReadBacks(AtCursor, W.Corrected, packets) == packets;
  }

  /** As written on both ends, a compound datagram of receiver reports
      still splits at the right offsets, but every report comes back with
      its header word as the SSRC and its losses shifted. */
  lemma AsWrittenCompound(packets: seq<RtcpPacket>, remote: Endpoint)
    requires forall i :: 0 <= i < |packets| ==> packets[i].ReceiverReport? && |packets[i].reports| < 32
    ensures Send(W.AsWritten, packets).Ok?
    ensures Receive(Send(W.AsWritten, packets).value, remote)
            == Ok(Tagged(ReadBacks(AsWritten, W.AsWritten, packets), remote))
  {
    assert forall i :: 0 <= i < |packets| ==> Carried(AsWritten, W.AsWritten, packets[i]);
    SplitImages(AsWritten, W.AsWritten, packets, remote);
    SendLayout(W.AsWritten, packets);
  }

  /** A goodbye whose length leaves no room for a reason parses without one,
      has no announced size, and so discards the whole datagram with a null
      reference. */
  lemma GoodbyeWithoutReasonDropsDatagram(remote: Endpoint)
    ensures Receive([0x81, GoodbyeType, 0, 1, 0, 0, 0, 7], remote) == Fail(NullReference)
  {
    var b: Bytes := [0x81, GoodbyeType, 0, 1, 0, 0, 0, 7];
    assert b[0..] == b;
    assert U16At(b, 2) == 1;
    var sources := ParseSources(AsWritten, b, 4, 1);
    assert sources.Ok? && sources.value.next == 8;
    assert ParseOne(AsWritten, b) == Ok(Goodbye(false, sources.value.value, None));
  }

  /** As written, a goodbye with a reason makes the receive loop resume
      four bytes past the packet's end, inside whatever packet follows it. */
  lemma GoodbyeSkipsWord(padding: bool, sources: seq<uint32>, text: Bytes, tail: Bytes, remote: Endpoint)
    requires |sources| < 32 && |text| < 0x100
    ensures var img := RtcpCodec.GoodbyeImage(padding, sources, Some(text));
            ParseRtcpPacket(img + tail).Ok?
    ensures var img := RtcpCodec.GoodbyeImage(padding, sources, Some(text));
            var rest := Split(Parser(AsWritten), img + tail, |img| + 4, remote);
            Receive(img + tail, remote)
            == (if rest.Ok? then Ok([Received(ParseRtcpPacket(img + tail).value, remote)] + rest.value) else rest)
  {
    var img := RtcpCodec.GoodbyeImage(padding, sources, Some(text));
    var b := img + tail;
    RtcpCodec.AsWrittenGoodbyeOvercounts(padding, sources, text, tail);
    assert b[0..] == b;
  }

  /** Read at the cursor, a goodbye with a reason comes back unchanged and
      the receive loop resumes exactly at the packet's end. */
  lemma GoodbyeResumesAtEnd(padding: bool, sources: seq<uint32>, text: Bytes, tail: Bytes, remote: Endpoint)
    requires |sources| < 32 && |text| < 0x100
    ensures var img := RtcpCodec.GoodbyeImage(padding, sources, Some(text));
            var rest := Split(Parser(AtCursor), img + tail, |img|, remote);
            Split(Parser(AtCursor), img + tail, 0, remote)
            == (if rest.Ok? then Ok([Received(Goodbye(padding, sources, Some(text)), remote)] + rest.value) else rest)
  {
    var img := RtcpCodec.GoodbyeImage(padding, sources, Some(text));
    var b := img + tail;
    RtcpCodec.RoundTripGoodbye(padding, sources, Some(text), tail);
    assert b[0..] == b;
    assert Parser(AtCursor)(b[0..]) == Ok(Goodbye(padding, sources, Some(text)));
  }
}
