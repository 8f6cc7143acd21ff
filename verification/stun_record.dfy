/** STUN messages as section 6 of RFC 5389 lays them out (`StunRecord`):
    a 20-byte header (type, length, magic cookie, transaction id) and a list
    of type-length-value attributes padded to four bytes. The message
    integrity (section 15.4) and fingerprint (section 15.5) attributes are
    kept apart from the list, as the relay does. HMAC-SHA1, CRC-32,
    SASLprep and UTF-8 are parameters of the model (`Crypto`). */
module StunRecord {
  import opened Results
  import opened Bytes
  import opened Net

  const MessageCookie: uint32 := 0x2112_A442
  const HeaderLength: nat := 20
  const TransactionIdLength: nat := 12
  /** Section 15.5 of RFC 5389: the CRC-32 is XORed with "STUN". */
  const FingerprintXor: uint32 := 0x5354_554E

  /** Message types (`StunMessageType`). */
  const BindingRequest: uint16 := 0x0001
  const BindingSuccessResponse: uint16 := 0x0101
  const BindingIndication: uint16 := 0x0011

  /** Attribute types (`StunAttributeType`) the relay itself writes or singles out. */
  const UsernameType: uint16 := 0x0006
  const MessageIntegrityType: uint16 := 0x0008
  const XorMappedAddressType: uint16 := 0x0020
  const FingerprintType: uint16 := 0x8028

  const IntegrityLength: nat := 20
  const FingerprintLength: nat := 4

  /** An HMAC-SHA1 value. */
  type Digest = s: Bytes | |s| == IntegrityLength witness Zeros(20)

  /** The primitives the relay takes from libraries. `passwordKey` is
      SASLprep followed by UTF-8 encoding. */
  datatype Crypto = Crypto(
    hmacSha1: (Bytes, Bytes) -> Digest,
    crc32: Bytes -> uint32,
    passwordKey: string -> Bytes,
    utf8Decode: Bytes -> string,
    utf8Encode: string -> Bytes)

  /** An attribute; a `null` value (an absent username) is `None`. */
  datatype Attribute = Attribute(attrType: uint16, value: Option<Bytes>)

  datatype Record = Record(
    messageType: uint16,
    transactionId: Bytes,
    attributes: seq<Attribute>,
    integrity: Option<Digest>)

  /** The value's bytes, none for a `null` value. */
  function ValueBytes(a: Attribute): Bytes
  {
    if a.value.None? then [] else a.value.value
  }

  /** `StunAttribute.Length`: the value length cast to 16 bits. */
  function Length(a: Attribute): uint16
  {
    |ValueBytes(a)| % TWO16
  }

  /** `StunAttribute.Padding`: the zero bytes that complete the value to a
      multiple of four. */
  function Padding(len: uint16): (p: nat)
    ensures p <= 3 && (len + p) % 4 == 0
  {
    var rem := len % 4;
    if rem == 0 then 0 else 4 - rem
  }

  /** Padding is the least such count: no shorter run aligns the value. */
  lemma PaddingIsLeast(len: uint16, q: nat)
    requires (len + q) % 4 == 0
    ensures Padding(len) <= q
  {
  }

  /** Bytes an attribute occupies on the wire: type, length, value, padding. */
  function AttributeSize(a: Attribute): nat
  {
    4 + Length(a) + Padding(Length(a))
  }

  function AttributesSize(attrs: seq<Attribute>): (n: nat)
    ensures n % 4 == 0
  {
    if |attrs| == 0 then 0 else AttributeSize(attrs[0]) + AttributesSize(attrs[1..])
  }

  /** `MessageLength`: the attributes' total size cast to 16 bits. As
      section 6 of RFC 5389 requires, its last two bits are always zero. */
  function MessageLength(attrs: seq<Attribute>): (n: uint16)
    ensures n % 4 == 0
  {
    AttributesSize(attrs) % TWO16
  }

  /** One attribute as `GetAsBytes` emits it: the value and padding only
      when the 16-bit length is nonzero. */
  function AttributeBytes(a: Attribute): Bytes
  {
    BE16(a.attrType) + BE16(Length(a))
    + (if Length(a) > 0 then ValueBytes(a) + Zeros(Padding(Length(a))) else [])
  }

  function AttributesBytes(attrs: seq<Attribute>): Bytes
  {
    if |attrs| == 0 then [] else AttributeBytes(attrs[0]) + AttributesBytes(attrs[1..])
  }

  /** `GetAsBytes(padLen)`: the header, with `padLen` added to the length
      field for the attributes that will follow, then the attribute list. */
  function AsBytes(r: Record, padLen: nat): Bytes
  {
    BE16(r.messageType) + BE16((MessageLength(r.attributes) + padLen) % TWO16)
    + BE32(MessageCookie) + r.transactionId + AttributesBytes(r.attributes)
  }

  /** A type-length-value attribute with its padding, as the writer lays it out. */
  function Tlv(a: Attribute): (t: Bytes)
    ensures |t| == 4 + |ValueBytes(a)| + Padding(Length(a))
  {
    BE16(a.attrType) + (BE16(Length(a)) + (ValueBytes(a) + Zeros(Padding(Length(a)))))
  }

  function IntegrityAttribute(d: Digest): Attribute
  {
    Attribute(MessageIntegrityType, Some(d))
  }

  /** `Sign`: the HMAC keyed with the prepared password over the message as
      it stands, its length field already counting the 24-byte integrity
      attribute (section 15.4 of RFC 5389). */
  function Sign(c: Crypto, r: Record, password: string): (s: Record)
    ensures s.integrity.Some?
    ensures s.messageType == r.messageType && s.transactionId == r.transactionId
    ensures s.attributes == r.attributes
  {
    r.(integrity := Some(c.hmacSha1(c.passwordKey(password), AsBytes(r, 24))))
  }

  /** Which length the fingerprint's input announces: `AsWritten` always
      counts 32 bytes of trailing attributes, `Corrected` counts the ones the
      writer emits (24 + 8 when signed, 8 otherwise). */
  datatype Variant = AsWritten | Corrected

  function TrailerLength(r: Record): nat
  {
    if r.integrity.Some? then 32 else 8
  }

  /** The bytes the `Fingerprint` getter feeds to CRC-32: the message with
      the chosen length, then the integrity attribute when signed. */
  function FingerprintInput(v: Variant, r: Record): Bytes
  {
    var padLen := if v == AsWritten then 32 else TrailerLength(r);
    AsBytes(r, padLen) + (if r.integrity.Some? then Tlv(IntegrityAttribute(r.integrity.value)) else [])
  }

  /** The fingerprint value: CRC-32 XOR 0x5354554E, big-endian. */
  function FingerprintValue(crc32: Bytes -> uint32, input: Bytes): (f: Bytes)
    ensures |f| == FingerprintLength
  {
    BE32(Xor32(crc32(input), FingerprintXor))
  }

  function FingerprintAttribute(v: Variant, crc32: Bytes -> uint32, r: Record): Attribute
  {
    Attribute(FingerprintType, Some(FingerprintValue(crc32, FingerprintInput(v, r))))
  }

  /** Section 15.2 of RFC 5389 for IPv4: family 1, port XOR the cookie's
      high half, address XOR the cookie. */
  const PortMask: uint16 := 0x2112

  function XorMappedValue(ep: Endpoint): (v: Bytes)
    ensures |v| == 8
  {
    [0, 1] + BE16(Xor16(ep.port, PortMask)) + BE32(Xor32(ep.address, MessageCookie))
  }

  function XorMappedAddress(ep: Endpoint): Attribute
  {
    Attribute(XorMappedAddressType, Some(XorMappedValue(ep)))
  }

  /** What a client reads back from an XOR-MAPPED-ADDRESS value. */
  function XorMappedEndpoint(v: Bytes): (r: Option<Endpoint>)
    ensures r.Some? ==> |v| == 8 && v[1] == 1
  {
    if |v| != 8 || v[0] != 0 || v[1] != 1 then None
    else Some(Endpoint(Xor32(U32At(v, 4), MessageCookie), Xor16(U16At(v, 2), PortMask)))
  }

  /** The masking is an involution on ports and addresses. */
  lemma XorMaskInvolution(port: uint16, address: uint32)
    ensures Xor16(Xor16(port, PortMask), PortMask) == port
    ensures Xor32(Xor32(address, MessageCookie), MessageCookie) == address
  {
  }

  /** The mapped endpoint a client decodes is the one the relay encoded. */
  lemma XorMappedRoundTrip(ep: Endpoint)
    ensures XorMappedEndpoint(XorMappedValue(ep)) == Some(ep)
  {
    var v := XorMappedValue(ep);
    BE16ReadIn([0, 1], Xor16(ep.port, PortMask), BE32(Xor32(ep.address, MessageCookie)));
    BE32ReadIn([0, 1] + BE16(Xor16(ep.port, PortMask)), Xor32(ep.address, MessageCookie), []);
    assert v + [] == v;
    XorMaskInvolution(ep.port, ep.address);
  }
}
