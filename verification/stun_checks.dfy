/** The checks a STUN agent applies to a message it receives: the
    FINGERPRINT of section 15.5 of RFC 5389 and the MESSAGE-INTEGRITY of
    section 15.4. Both are stated on the bytes alone, so they judge what the
    writer emits independently of how the writer computed it. */
module StunChecks {
  import opened Results
  import opened Bytes
  import opened StunRecord
  import opened StunRecordWriter

  /** The message ends in a FINGERPRINT attribute whose value is the CRC-32
      of every byte before it, XORed with 0x5354554E. */
  predicate FingerprintChecks(crc32: Bytes -> uint32, m: Bytes)
  {
    && |m| >= HeaderLength + 8
    && m[|m| - 8..|m| - 4] == BE16(FingerprintType) + BE16(FingerprintLength)
    && m[|m| - 4..] == FingerprintValue(crc32, m[..|m| - 8])
  }

  /** A MESSAGE-INTEGRITY attribute at offset `at` whose value is the HMAC,
      under `key`, of the message before it, the length field set to count
      up to the end of the attribute. */
  predicate IntegrityChecks(hmac: (Bytes, Bytes) -> Digest, key: Bytes, m: Bytes, at: nat)
  {
    && HeaderLength <= at && at + 24 <= |m| && at + 24 - HeaderLength < TWO16
    && m[at..at + 4] == BE16(MessageIntegrityType) + BE16(IntegrityLength)
    && m[at + 4..at + 24] == hmac(key, m[..2] + BE16(at + 24 - HeaderLength) + m[4..at])
  }

  /** The fingerprint attribute is the last eight bytes of the emitted
      message; everything before it is header, attributes and integrity. */
  lemma EmittedSplit(r: Record, fp: Bytes)
    requires |fp| == FingerprintLength
    ensures var e := Emitted(r, fp);
            && |e| >= 8
            && e[..|e| - 8] == HeaderImage(r) + (AttributesImage(r.attributes) + IntegrityImage(r))
            && e[|e| - 8..|e| - 4] == BE16(FingerprintType) + BE16(FingerprintLength)
            && e[|e| - 4..] == fp
  {
    var e := Emitted(r, fp);
    var pre := HeaderImage(r) + (AttributesImage(r.attributes) + IntegrityImage(r));
    var f := Attribute(FingerprintType, Some(fp));
    assert Length(f) == 4 && Padding(4) == 0;
    var tail := BE16(FingerprintType) + BE16(FingerprintLength);
    assert FingerprintTlv(fp) == tail + fp by {
      assert Zeros(0) == [];
    }
    assert e == pre + (tail + fp);
    assert e[..|e| - 8] == pre;
    assert e[|e| - 8..] == tail + fp;
    SuffixHead(e, |e| - 8, tail, fp);
  }

  /** What `GetAsBytes` produces for the emitted trailer length is the
      emitted header and attributes. */
  lemma AsBytesImage(r: Record)
    requires WellSized(r)
    ensures AsBytes(r, TrailerLength(r)) == HeaderImage(r) + AttributesImage(r.attributes)
  {
    AttributesImageLength(r.attributes);
  }

  /** With the emitted trailer length, the fingerprint input is exactly the
      emitted bytes before the fingerprint attribute. */
  lemma CorrectedInput(r: Record)
    requires WellSized(r)
    ensures FingerprintInput(Corrected, r) == HeaderImage(r) + (AttributesImage(r.attributes) + IntegrityImage(r))
  {
    AsBytesImage(r);
    assert FingerprintInput(Corrected, r) == AsBytes(r, TrailerLength(r)) + IntegrityImage(r);
  }

  /** The length field of `GetAsBytes(padLen)`. */
  lemma AsBytesLengthField(r: Record, padLen: nat)
    requires |r.transactionId| == TransactionIdLength
    requires MessageLength(r.attributes) + padLen < TWO16
    ensures |AsBytes(r, padLen)| >= HeaderLength
    ensures U16At(AsBytes(r, padLen), 2) == MessageLength(r.attributes) + padLen
  {
    var x := MessageLength(r.attributes) + padLen;
    var rest := BE32(MessageCookie) + r.transactionId + AttributesBytes(r.attributes);
    assert AsBytes(r, padLen) == BE16(r.messageType) + BE16(x) + rest;
    BE16ReadIn(BE16(r.messageType), x, rest);
  }

  /** The fingerprint check reads the last eight bytes and the bytes before them. */
  lemma FingerprintChecksOn(crc32: Bytes -> uint32, m: Bytes, pre: Bytes, fp: Bytes)
    requires |m| >= HeaderLength + 8 && m[..|m| - 8] == pre && m[|m| - 4..] == fp
    requires m[|m| - 8..|m| - 4] == BE16(FingerprintType) + BE16(FingerprintLength)
    ensures FingerprintChecks(crc32, m) <==> fp == FingerprintValue(crc32, pre)
  {
  }

  /** With the length the writer emits, the fingerprint the record computes
      is the one a receiver computes: the corrected writer's messages always
      pass the check. */
  lemma CorrectedFingerprintChecks(crc32: Bytes -> uint32, r: Record)
    requires WellSized(r)
    ensures Write(Corrected, crc32, r).Ok?
    ensures FingerprintChecks(crc32, Write(Corrected, crc32, r).value)
  {
    var input := FingerprintInput(Corrected, r);
    var fp := FingerprintValue(crc32, input);
    LaidOutSplit(r, fp);
    FingerprintChecksOn(crc32, Layout(r, fp).value, input, fp);
  }

  /** The bytes the writer lays out for a well-sized record: the length
      field it emits, the corrected fingerprint input, then the fingerprint
      attribute carrying `fp`. */
  lemma LaidOutSplit(r: Record, fp: Bytes)
    requires WellSized(r) && |fp| == FingerprintLength
    ensures Layout(r, fp).Ok?
    ensures var m := Layout(r, fp).value;
            && |m| >= HeaderLength + 8
            && U16At(m, 2) == MessageLength(r.attributes) + TrailerLength(r)
            && m[..|m| - 8] == FingerprintInput(Corrected, r)
            && m[|m| - 8..|m| - 4] == BE16(FingerprintType) + BE16(FingerprintLength)
            && m[|m| - 4..] == fp
  {
    LayoutFits(r, fp);
    MessageLengthExact(r);
    EmittedSplit(r, fp);
    CorrectedInput(r);
  }

  /** A signed record announces 32 trailing bytes and has them, so the
      writer as written agrees with the corrected one. */
  lemma SignedFingerprintAgrees(crc32: Bytes -> uint32, r: Record)
    requires r.integrity.Some?
    ensures Write(AsWritten, crc32, r) == Write(Corrected, crc32, r)
  {
  }

  /** An unsigned record: the writer as written feeds CRC-32 a header whose
      length field says 32 trailing bytes, while the message it sends says 8.
      So the two inputs differ, and the receiver's check passes exactly when
      CRC-32 happens to agree on them. */
  lemma AsWrittenFingerprintMismatch(crc32: Bytes -> uint32, r: Record)
    requires WellSized(r) && r.integrity.None?
    ensures Write(AsWritten, crc32, r).Ok?
    ensures U16At(FingerprintInput(AsWritten, r), 2) == MessageLength(r.attributes) + 32
    ensures U16At(Write(AsWritten, crc32, r).value, 2) == MessageLength(r.attributes) + 8
    ensures FingerprintInput(AsWritten, r) != FingerprintInput(Corrected, r)
    ensures FingerprintChecks(crc32, Write(AsWritten, crc32, r).value)
            <==> crc32(FingerprintInput(AsWritten, r)) == crc32(FingerprintInput(Corrected, r))
  {
    AsWrittenLengthFields(crc32, r);
    AsWrittenCheck(crc32, r);
  }

  /** The length fields of the as-written fingerprint input and of the
      message sent: 32 and 8 trailing bytes. */
  lemma AsWrittenLengthFields(crc32: Bytes -> uint32, r: Record)
    requires WellSized(r) && r.integrity.None?
    ensures Write(AsWritten, crc32, r).Ok?
    ensures U16At(FingerprintInput(AsWritten, r), 2) == MessageLength(r.attributes) + 32
    ensures U16At(Write(AsWritten, crc32, r).value, 2) == MessageLength(r.attributes) + 8
    ensures FingerprintInput(AsWritten, r) != FingerprintInput(Corrected, r)
  {
    LaidOutSplit(r, FingerprintValue(crc32, FingerprintInput(AsWritten, r)));
    MessageLengthExact(r);
    AsBytesLengthField(r, 32);
    AsBytesLengthField(r, 8);
  }

  /** The receiver's check on the as-written message compares CRC-32 of
      the two inputs. */
  lemma AsWrittenCheck(crc32: Bytes -> uint32, r: Record)
    requires WellSized(r) && r.integrity.None?
    ensures Write(AsWritten, crc32, r).Ok?
    ensures FingerprintChecks(crc32, Write(AsWritten, crc32, r).value)
            <==> crc32(FingerprintInput(AsWritten, r)) == crc32(FingerprintInput(Corrected, r))
  {
    var asWritten := FingerprintInput(AsWritten, r);
    var fp := FingerprintValue(crc32, asWritten);
    LaidOutSplit(r, fp);
    FingerprintedElsewhere(crc32, Layout(r, fp).value, asWritten, FingerprintInput(Corrected, r));
  }

  /** A message whose fingerprint was computed over other bytes than the
      ones before it passes the check exactly when CRC-32 agrees on both. */
  lemma FingerprintedElsewhere(crc32: Bytes -> uint32, m: Bytes, input: Bytes, pre: Bytes)
    requires |m| >= HeaderLength + 8 && m[..|m| - 8] == pre
    requires m[|m| - 8..|m| - 4] == BE16(FingerprintType) + BE16(FingerprintLength)
    requires m[|m| - 4..] == FingerprintValue(crc32, input)
    ensures FingerprintChecks(crc32, m) <==> crc32(input) == crc32(pre)
  {
    FingerprintChecksOn(crc32, m, pre, FingerprintValue(crc32, input));
    FingerprintValuesAgree(crc32, input, pre);
  }

  /** Two inputs get the same fingerprint exactly when CRC-32 agrees on them. */
  lemma FingerprintValuesAgree(crc32: Bytes -> uint32, a: Bytes, b: Bytes)
    ensures FingerprintValue(crc32, a) == FingerprintValue(crc32, b) <==> crc32(a) == crc32(b)
  {
    if FingerprintValue(crc32, a) == FingerprintValue(crc32, b) {
      BE32Injective(Xor32(crc32(a), FingerprintXor), Xor32(crc32(b), FingerprintXor));
    }
  }

  /** The relay's answer to a Binding success response, an unsigned
      indication with no attributes, is sent with length 8 and fingerprinted
      as if it were 32. */
  lemma IndicationFingerprintLength(crc32: Bytes -> uint32, txid: Bytes)
    requires |txid| == TransactionIdLength
    ensures var r := Record(BindingIndication, txid, [], None);
            && Write(AsWritten, crc32, r).Ok?
            && U16At(Write(AsWritten, crc32, r).value, 2) == 8
            && U16At(FingerprintInput(AsWritten, r), 2) == 32
  {
    AsWrittenFingerprintMismatch(crc32, Record(BindingIndication, txid, [], None));
  }

  /** An integrity attribute placed after `head`, whose value is the HMAC
      of `head` with its length field counting through the attribute, checks. */
  lemma IntegrityAfter(hmac: (Bytes, Bytes) -> Digest, key: Bytes, m: Bytes, head: Bytes, d: Digest, rest: Bytes)
    requires |head| >= HeaderLength && |head| + 4 < TWO16
    requires m == head + ((BE16(MessageIntegrityType) + BE16(IntegrityLength)) + (d + rest))
    requires d == hmac(key, head[..2] + BE16(|head| + 24 - HeaderLength) + head[4..])
    ensures IntegrityChecks(hmac, key, m, |head|)
  {
    var at := |head|;
    var mi := BE16(MessageIntegrityType) + BE16(IntegrityLength);
    assert m[..at] == head && m[at..] == mi + (d + rest);
    SuffixHead(m, at, mi, d + rest);
    SuffixHead(m, at + 4, d, rest);
    assert m[..2] == head[..2] && m[4..at] == head[4..];
  }

  /** `GetAsBytes(padLen)` split at the length field. */
  lemma AsBytesFields(r: Record, padLen: nat)
    requires MessageLength(r.attributes) + padLen < TWO16
    ensures AsBytes(r, padLen) == BE16(r.messageType) + BE16(MessageLength(r.attributes) + padLen)
                                  + (BE32(MessageCookie) + r.transactionId + AttributesBytes(r.attributes))
  {
  }

  /** The emitted header around its length field. */
  lemma HeaderAround(r: Record, x: Bytes)
    requires |r.transactionId| == TransactionIdLength
    ensures (HeaderImage(r) + x)[..2] == BE16(r.messageType)
    ensures (HeaderImage(r) + x)[4..] == BE32(MessageCookie) + r.transactionId + x
  {
    var len := (MessageLength(r.attributes) + TrailerLength(r)) % TWO16;
    assert HeaderImage(r) + x == BE16(r.messageType) + (BE16(len) + (BE32(MessageCookie) + r.transactionId + x));
  }

  /** The integrity attribute of a signed record: type, length 20, the
      digest, no padding. */
  lemma IntegrityImageFields(s: Record)
    requires s.integrity.Some?
    ensures IntegrityImage(s) == (BE16(MessageIntegrityType) + BE16(IntegrityLength)) + s.integrity.value
  {
    assert Padding(20) == 0 && Zeros(0) == [];
  }

  /** The emitted form of a record whose digest is the HMAC of its own
      `GetAsBytes(24)` checks. */
  lemma EmittedVerifies(hmac: (Bytes, Bytes) -> Digest, key: Bytes, s: Record, fp: Bytes)
    requires WellSized(s) && s.integrity.Some? && |fp| == FingerprintLength
    requires s.integrity.value == hmac(key, AsBytes(s, 24))
    ensures IntegrityChecks(hmac, key, Emitted(s, fp), HeaderLength + AttributesSize(s.attributes))
  {
    var d := s.integrity.value;
    var img := AttributesImage(s.attributes);
    var head := HeaderImage(s) + img;
    var mi := BE16(MessageIntegrityType) + BE16(IntegrityLength);
    MessageLengthExact(s);
    assert |head| == HeaderLength + AttributesSize(s.attributes) && AttributesBytes(s.attributes) == img by {
      AttributesImageLength(s.attributes);
    }
    assert Emitted(s, fp) == head + (mi + (d + FingerprintTlv(fp))) by {
      IntegrityImageFields(s);
    }
    assert AsBytes(s, 24) == head[..2] + BE16(|head| + 24 - HeaderLength) + head[4..] by {
      HeaderAround(s, img);
      AsBytesFields(s, 24);
    }
    var n := AttributesSize(s.attributes);
    assert n + 32 < TWO16;
    assert |head| == HeaderLength + n;
    assert d == hmac(key, head[..2] + BE16(|head| + 24 - HeaderLength) + head[4..]);
    IntegrityAfter(hmac, key, Emitted(s, fp), head, d, FingerprintTlv(fp));
  }

  /** A signed record's emitted message carries an integrity attribute,
      right after the attributes, that a receiver holding the same password
      verifies (section 15.4 of RFC 5389). */
  lemma SignedMessageVerifies(c: Crypto, r: Record, password: string, v: Variant)
    requires WellSized(r)
    ensures Write(v, c.crc32, Sign(c, r, password)).Ok?
    ensures IntegrityChecks(c.hmacSha1, c.passwordKey(password),
                            Write(v, c.crc32, Sign(c, r, password)).value,
                            HeaderLength + AttributesSize(r.attributes))
  {
    var s := Sign(c, r, password);
    SignedFields(c, r, password);
    LaidOutVerifies(c.hmacSha1, c.passwordKey(password), s, FingerprintValue(c.crc32, FingerprintInput(v, s)));
  }

  /** Signing keeps the record well sized, and its digest is the HMAC of its
      own `GetAsBytes(24)`. */
  lemma SignedFields(c: Crypto, r: Record, password: string)
    requires WellSized(r)
    ensures WellSized(Sign(c, r, password))
    ensures Sign(c, r, password).integrity.value
            == c.hmacSha1(c.passwordKey(password), AsBytes(Sign(c, r, password), 24))
  {
    assert AsBytes(Sign(c, r, password), 24) == AsBytes(r, 24);
  }

  /** `EmittedVerifies`, for the bytes the writer lays out. */
  lemma LaidOutVerifies(hmac: (Bytes, Bytes) -> Digest, key: Bytes, s: Record, fp: Bytes)
    requires WellSized(s) && s.integrity.Some? && |fp| == FingerprintLength
    requires s.integrity.value == hmac(key, AsBytes(s, 24))
    ensures Layout(s, fp).Ok?
    ensures IntegrityChecks(hmac, key, Layout(s, fp).value, HeaderLength + AttributesSize(s.attributes))
  {
    LayoutFits(s, fp);
    EmittedVerifies(hmac, key, s, fp);
  }
}
