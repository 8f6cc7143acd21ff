/** `StunRecordReader.Read`: a STUN message from a datagram. The header's
    length field is read and ignored; attributes are taken until the end of
    the buffer. Message integrity and fingerprint attributes are parsed and
    dropped, so a record read off the wire is never signed. */
module StunRecordReader {
  import opened Results
  import opened Bytes
  import opened StunRecord

  /** Whether the reader keeps an attribute of this type in the list. */
  predicate Kept(t: uint16)
  {
    t != MessageIntegrityType && t != FingerprintType
  }

  /** The attribute loop from offset `idx`. */
  function ReadAttributes(b: Bytes, idx: nat): (r: Result<seq<Attribute>>)
    ensures r.Fail? ==> r.error == OutOfRange
    decreases |b| - idx
  {
    if idx >= |b| then Ok([])
    else if idx + 4 > |b| then Fail(OutOfRange)
    else
      var attrType := U16At(b, idx);
      var length := U16At(b, idx + 2);
      if idx + 4 + length > |b| then Fail(OutOfRange)
      else
        var value := b[idx + 4..idx + 4 + length];
        var rest :- ReadAttributes(b, idx + 4 + length + Padding(length));
        if Kept(attrType) then Ok([Attribute(attrType, Some(value))] + rest) else Ok(rest)
  }

  /** `Read`: header fields at their offsets; a wrong cookie throws before
      the transaction id is taken; a short buffer throws out-of-range. */
  function Read(b: Bytes): (r: Result<Record>)
    ensures r.Ok? <==> |b| >= HeaderLength && U32At(b, 4) == MessageCookie && ReadAttributes(b, HeaderLength).Ok?
    ensures |b| >= 8 && U32At(b, 4) != MessageCookie ==> r == Fail(InvalidOperation)
    ensures r.Ok? ==> && r.value.messageType == U16At(b, 0)
                      && r.value.transactionId == b[8..20]
                      && r.value.integrity.None?
  {
    if |b| < 8 then Fail(OutOfRange)
    else if U32At(b, 4) != MessageCookie then Fail(InvalidOperation)
    else if |b| < HeaderLength then Fail(OutOfRange)
    else
      var attributes :- ReadAttributes(b, HeaderLength);
      Ok(Record(U16At(b, 0), b[8..HeaderLength], attributes, None))
  }

  /** The header length field has no say: two datagrams that differ only
      there read the same. */
  lemma LengthFieldIgnored(b: Bytes, len: uint16)
    requires |b| >= 4
    ensures Read(b[..2] + BE16(len) + b[4..]) == Read(b)
  {
    var b' := b[..2] + BE16(len) + b[4..];
    assert |b'| == |b|;
    assert forall i :: 0 <= i < |b| && (i < 2 || i >= 4) ==> b'[i] == b[i];
    if |b| >= HeaderLength {
      assert U32At(b', 4) == U32At(b, 4);
      assert U16At(b', 0) == U16At(b, 0);
      assert b'[8..HeaderLength] == b[8..HeaderLength];
      assert b'[HeaderLength..] == b[HeaderLength..];
      ReadAttributesSuffix(b, b', HeaderLength);
    } else if |b| >= 8 {
      assert U32At(b', 4) == U32At(b, 4);
    }
  }

  /** The attribute loop from `idx` sees only the bytes from `idx` on. */
  lemma {:induction false} ReadAttributesSuffix(b: Bytes, c: Bytes, idx: nat)
    requires |b| == |c| && idx <= |b| && b[idx..] == c[idx..]
    ensures ReadAttributes(b, idx) == ReadAttributes(c, idx)
    decreases |b| - idx
  {
    if idx + 4 <= |b| {
      SameSuffixU16(b, c, idx, idx);
      SameSuffixU16(b, c, idx, idx + 2);
      var length := U16At(b, idx + 2);
      var next := idx + 4 + length + Padding(length);
      if idx + 4 + length <= |b| {
        SameSuffixSlice(b, c, idx, idx + 4, idx + 4 + length);
        if next <= |b| {
          SameSuffixSlice(b, c, idx, next, next);
          ReadAttributesSuffix(b, c, next);
        } else {
          assert ReadAttributes(b, next) == Ok([]) == ReadAttributes(c, next);
        }
        ReadAttributesStep(b, c, idx, length);
      }
    }
  }

  /** One turn of the loop reads the same from two buffers that agree on
      the attribute's fields, its value and what the loop reads after it. */
  lemma ReadAttributesStep(b: Bytes, c: Bytes, idx: nat, length: uint16)
    requires |b| == |c| && idx + 4 <= |b|
    requires U16At(b, idx) == U16At(c, idx) && U16At(b, idx + 2) == length == U16At(c, idx + 2)
    requires idx + 4 + length <= |b| && b[idx + 4..idx + 4 + length] == c[idx + 4..idx + 4 + length]
    requires ReadAttributes(b, idx + 4 + length + Padding(length)) == ReadAttributes(c, idx + 4 + length + Padding(length))
    ensures ReadAttributes(b, idx) == ReadAttributes(c, idx)
  {
  }

  /** A datagram of just a header, with the right cookie, is a record with
      no attributes. */
  lemma HeaderOnly(messageType: uint16, len: uint16, txid: Bytes)
    requires |txid| == TransactionIdLength
    ensures Read(BE16(messageType) + BE16(len) + BE32(MessageCookie) + txid)
            == Ok(Record(messageType, txid, [], None))
  {
    var b := BE16(messageType) + BE16(len) + BE32(MessageCookie) + txid;
    BE16ReadIn([], messageType, BE16(len) + BE32(MessageCookie) + txid);
    assert b == [] + BE16(messageType) + (BE16(len) + BE32(MessageCookie) + txid);
    BE32ReadIn(BE16(messageType) + BE16(len), MessageCookie, txid);
    assert b[8..20] == txid;
  }

  /** A header whose cookie is wrong throws, whatever follows. */
  lemma WrongCookieThrows(messageType: uint16, len: uint16, cookie: uint32, rest: Bytes)
    requires cookie != MessageCookie
    ensures Read(BE16(messageType) + BE16(len) + BE32(cookie) + rest) == Fail(InvalidOperation)
  {
    BE32ReadIn(BE16(messageType) + BE16(len), cookie, rest);
  }
}
