/** `StunHandler.ProcessRequestAsync`: a Binding request is answered with a
    Binding success response carrying the sender's reflexive address and
    the request's username, signed with that user's password when the user
    is known; a Binding success response is answered with a Binding
    indication; anything else gets no answer. The socket send is left out:
    the model returns the bytes that would be sent. */
module StunHandler {
  import opened Results
  import opened Bytes
  import opened Net
  import opened StunRecord
  import StunRecordReader
  import opened StunRecordWriter
  import StunChecks
  import opened StunUsers

  /** `OfType<UsernameAttribute>().FirstOrDefault()`: the reader makes a
      username attribute of every attribute of that type, so this is the
      first attribute of the username type. */
  function FirstUsername(attrs: seq<Attribute>): (r: Option<Attribute>)
    ensures r.None? <==> forall i :: 0 <= i < |attrs| ==> attrs[i].attrType != UsernameType
    ensures r.Some? ==> exists i :: && 0 <= i < |attrs| && attrs[i] == r.value
                                    && r.value.attrType == UsernameType
                                    && forall j :: 0 <= j < i ==> attrs[j].attrType != UsernameType
  {
    if |attrs| == 0 then None
    else if attrs[0].attrType == UsernameType then Some(attrs[0])
    else
      var r := FirstUsername(attrs[1..]);
      assert r.Some? ==> exists i :: && 0 < i < |attrs| && attrs[i] == r.value
                                     && forall j :: 0 <= j < i ==> attrs[j].attrType != UsernameType by {
        if r.Some? {
          var k :| && 0 <= k < |attrs[1..]| && attrs[1..][k] == r.value
                   && forall j :: 0 <= j < k ==> attrs[1..][j].attrType != UsernameType;
          assert attrs[k + 1] == r.value;
          assert forall j :: 0 < j < k + 1 ==> attrs[j] == attrs[1..][j - 1];
        }
      }
      r
  }

  /** The request's username as text (`Encoding.UTF8.GetString`). */
  function RequestUsername(c: Crypto, request: Record): Option<string>
  {
    match FirstUsername(request.attributes)
    case None => None
    case Some(a) => Some(c.utf8Decode(ValueBytes(a)))
  }

  /** The username value of the response: the request's name re-encoded,
      `null` when the request had none. */
  function UsernameEcho(c: Crypto, request: Record): Option<Bytes>
  {
    match RequestUsername(c, request)
    case None => None
    case Some(name) => Some(c.utf8Encode(name))
  }

  /** `ProcessBindingRequest`. */
  function BindingResponse(c: Crypto, users: Users, request: Record, remote: Endpoint): (r: Record)
    ensures r.messageType == BindingSuccessResponse && r.transactionId == request.transactionId
    ensures r.attributes == [XorMappedAddress(remote), Attribute(UsernameType, UsernameEcho(c, request))]
    ensures r.integrity.Some? <==> && RequestUsername(c, request).Some?
                                   && GetPassword(users, RequestUsername(c, request).value).Some?
  {
    var name := RequestUsername(c, request);
    var response := Record(BindingSuccessResponse, request.transactionId,
                           [XorMappedAddress(remote), Attribute(UsernameType, UsernameEcho(c, request))], None);
    if name.None? then response
    else
      match GetPassword(users, name.value)
      case None => response
      case Some(password) => Sign(c, response, password)
  }

  /** `ProcessBindingSuccessResponse`. */
  function IndicationFor(request: Record): Record
  {
    Record(BindingIndication, request.transactionId, [], None)
  }

  /** The record `ProcessRequestAsync` sends back, if any; a datagram the
      reader rejects throws. */
  function Respond(c: Crypto, users: Users, b: Bytes, remote: Endpoint): (r: Result<Option<Record>>)
    ensures StunRecordReader.Read(b).Fail? ==> r == Fail(StunRecordReader.Read(b).error)
    ensures r.Ok? ==> StunRecordReader.Read(b).Ok?
    ensures r.Ok? ==> (r.value.Some? <==> StunRecordReader.Read(b).value.messageType in {BindingRequest, BindingSuccessResponse})
    ensures r.Ok? && r.value.Some? ==> r.value.value.transactionId == StunRecordReader.Read(b).value.transactionId
  {
    var request :- StunRecordReader.Read(b);
    if request.messageType == BindingRequest then Ok(Some(BindingResponse(c, users, request, remote)))
    else if request.messageType == BindingSuccessResponse then Ok(Some(IndicationFor(request)))
    else Ok(None)
  }

  /** The bytes sent back (`SendResponseAsync`), with the writer variant
      `v`: `AsWritten` is the relay's behaviour. */
  function Reply(v: Variant, c: Crypto, users: Users, b: Bytes, remote: Endpoint): (r: Result<Option<Bytes>>)
    ensures StunRecordReader.Read(b).Fail? ==> r.Fail?
    ensures r.Ok? ==> && Respond(c, users, b, remote).Ok?
                      && (r.value.Some? <==> Respond(c, users, b, remote).value.Some?)
  {
    var response :- Respond(c, users, b, remote);
    if response.None? then Ok(None)
    else
      var bytes :- Write(v, c.crc32, response.value);
      Ok(Some(bytes))
  }

  /** The echoed username leaves room in the 16-bit length fields. */
  predicate EchoFits(c: Crypto, request: Record)
  {
    UsernameEcho(c, request).Some? ==> |UsernameEcho(c, request).value| < 0x8000
  }

  /** The unsigned response, before any signing. */
  function UnsignedResponse(c: Crypto, request: Record, remote: Endpoint): Record
  {
    Record(BindingSuccessResponse, request.transactionId,
           [XorMappedAddress(remote), Attribute(UsernameType, UsernameEcho(c, request))], None)
  }

  /** A record of an 8-byte attribute and one under 32 KiB, both kept by
      the reader, fits the writer, and the reader keeps both attributes. */
  lemma PairWellSized(r: Record)
    requires |r.transactionId| == TransactionIdLength && |r.attributes| == 2
    requires |ValueBytes(r.attributes[0])| == 8 && |ValueBytes(r.attributes[1])| < 0x8000
    requires StunRecordReader.Kept(r.attributes[0].attrType) && StunRecordReader.Kept(r.attributes[1].attrType)
    ensures WellSized(r) && Readable(r.attributes)
  {
    var attrs := r.attributes;
    var a0, a1 := attrs[0], attrs[1];
    assert attrs[1..] == [a1] && [a1][1..] == [];
    assert AttributeSize(a0) == 12 by {
      assert Length(a0) == 8 && Padding(8) == 0;
    }
    assert AttributeSize(a1) < 0x8000 + 8 by {
      assert Length(a1) == |ValueBytes(a1)|;
    }
    assert AttributesSize(attrs) == AttributeSize(a0) + AttributeSize(a1) by {
      assert AttributesSize([a1]) == AttributeSize(a1) + AttributesSize([]);
    }
    assert Readable(attrs) by {
      assert Readable([a1]);
    }
  }

  /** A response to a request read off the wire fits the writer, and the
      reader keeps both of its attributes. */
  lemma ResponseWellSized(c: Crypto, request: Record, remote: Endpoint)
    requires |request.transactionId| == TransactionIdLength && EchoFits(c, request)
    ensures WellSized(UnsignedResponse(c, request, remote))
    ensures Readable(UnsignedResponse(c, request, remote).attributes)
  {
    var r := UnsignedResponse(c, request, remote);
    var echo := UsernameEcho(c, request);
    assert r.attributes[1] == Attribute(UsernameType, echo);
    assert |ValueBytes(r.attributes[1])| < 0x8000;
    PairWellSized(r);
  }

  /** The signed or unsigned response is the unsigned one, signed with the
      user's password when the user is known. */
  lemma BindingResponseSigned(c: Crypto, users: Users, request: Record, remote: Endpoint)
    ensures var r := BindingResponse(c, users, request, remote);
            var name := RequestUsername(c, request);
            if name.Some? && GetPassword(users, name.value).Some?
            then r == Sign(c, UnsignedResponse(c, request, remote), GetPassword(users, name.value).value)
            else r == UnsignedResponse(c, request, remote)
  {
  }

  /** A client that sends a Binding request reads, from the answer, its own
      transaction id and the address and port it was seen from (the
      reflexive candidate of section 7.2.5.3.1 of RFC 5245). */
  lemma {:induction false} ClientLearnsItsAddress(v: Variant, c: Crypto, users: Users, b: Bytes, remote: Endpoint)
    requires StunRecordReader.Read(b).Ok? && StunRecordReader.Read(b).value.messageType == BindingRequest
    requires EchoFits(c, StunRecordReader.Read(b).value)
    ensures Reply(v, c, users, b, remote).Ok? && Reply(v, c, users, b, remote).value.Some?
    ensures var back := StunRecordReader.Read(Reply(v, c, users, b, remote).value.value);
            && back.Ok? && back.value.messageType == BindingSuccessResponse
            && back.value.transactionId == StunRecordReader.Read(b).value.transactionId
            && |back.value.attributes| == 2
            && XorMappedEndpoint(ValueBytes(back.value.attributes[0])) == Some(remote)
            && back.value.attributes[1].attrType == UsernameType
  {
    var request := StunRecordReader.Read(b).value;
    var unsigned := UnsignedResponse(c, request, remote);
    var response := BindingResponse(c, users, request, remote);
    BindingResponseSigned(c, users, request, remote);
    ResponseWellSized(c, request, remote);
    ReadWrite(v, c.crc32, response);
    XorMappedRoundTrip(remote);
    assert ReadBacks(response.attributes) == [ReadBack(response.attributes[0])] + ReadBacks(response.attributes[1..]);
  }

  /** When the user is known, the answer carries a message integrity the
      client verifies with that user's password. */
  lemma KnownUserVerifies(v: Variant, c: Crypto, users: Users, b: Bytes, remote: Endpoint)
    requires StunRecordReader.Read(b).Ok? && StunRecordReader.Read(b).value.messageType == BindingRequest
    requires EchoFits(c, StunRecordReader.Read(b).value)
    requires RequestUsername(c, StunRecordReader.Read(b).value).Some?
    requires GetPassword(users, RequestUsername(c, StunRecordReader.Read(b).value).value).Some?
    ensures Reply(v, c, users, b, remote).Ok? && Reply(v, c, users, b, remote).value.Some?
    ensures StunChecks.IntegrityChecks(
              c.hmacSha1,
              c.passwordKey(GetPassword(users, RequestUsername(c, StunRecordReader.Read(b).value).value).value),
              Reply(v, c, users, b, remote).value.value,
              HeaderLength + AttributesSize(UnsignedResponse(c, StunRecordReader.Read(b).value, remote).attributes))
  {
    var request := StunRecordReader.Read(b).value;
    var password := GetPassword(users, RequestUsername(c, request).value).value;
    BindingResponseSigned(c, users, request, remote);
    ResponseWellSized(c, request, remote);
    StunChecks.SignedMessageVerifies(c, UnsignedResponse(c, request, remote), password, v);
  }

  /** Every answer the corrected writer sends passes the receiver's
      fingerprint check. */
  lemma CorrectedRepliesFingerprinted(c: Crypto, users: Users, b: Bytes, remote: Endpoint)
    requires StunRecordReader.Read(b).Ok? && EchoFits(c, StunRecordReader.Read(b).value)
    requires Reply(Corrected, c, users, b, remote).Ok? && Reply(Corrected, c, users, b, remote).value.Some?
    ensures StunChecks.FingerprintChecks(c.crc32, Reply(Corrected, c, users, b, remote).value.value)
  {
    var request := StunRecordReader.Read(b).value;
    if request.messageType == BindingRequest {
      BindingResponseSigned(c, users, request, remote);
      ResponseWellSized(c, request, remote);
      StunChecks.CorrectedFingerprintChecks(c.crc32, BindingResponse(c, users, request, remote));
    } else {
      StunChecks.CorrectedFingerprintChecks(c.crc32, IndicationFor(request));
    }
  }

  /** The relay's answer to a Binding success response is sent with length
      8 but fingerprinted over a header announcing 32: it passes the
      receiver's check only if CRC-32 collides on the two. */
  lemma IndicationFingerprintMismatch(c: Crypto, users: Users, b: Bytes, remote: Endpoint)
    requires StunRecordReader.Read(b).Ok?
    requires StunRecordReader.Read(b).value.messageType == BindingSuccessResponse
    ensures Reply(AsWritten, c, users, b, remote).Ok? && Reply(AsWritten, c, users, b, remote).value.Some?
    ensures var m := Reply(AsWritten, c, users, b, remote).value.value;
            var indication := IndicationFor(StunRecordReader.Read(b).value);
            && U16At(m, 2) == 8
            && (StunChecks.FingerprintChecks(c.crc32, m)
                <==> c.crc32(FingerprintInput(AsWritten, indication)) == c.crc32(FingerprintInput(Corrected, indication)))
  {
    var indication := IndicationFor(StunRecordReader.Read(b).value);
    StunChecks.AsWrittenFingerprintMismatch(c.crc32, indication);
  }
}
