/** The SRTP cryptographic context of section 3.2 of RFC 3711 as the relay
    keeps it: `SrtpStreamContextKey` identifies a context by the SSRC and
    the destination endpoint (section 3.2.3), and `SrtpStreamContext`
    holds the rollover counter, the highest sequence number, the key
    derivation rate and the session keys. */
module SrtpStreamContext {
  import opened Results
  import opened Bytes
  import opened Net

  /** `SrtpConstants`: AES-128 session keys, HMAC-SHA1 authentication keys
      of 160 bits, 112-bit salts, a key derivation rate of zero. */
  const EncryptionSessionKeyLength: nat := 16
  const AuthSessionKeyLength: nat := 20
  const SaltSessionKeyLength: nat := 14
  const DefaultKeyDerivationRate: uint32 := 0
  const PrfInputBlockSize: nat := 16

  /** `SrtpEncryptionKeyLabel`: the labels of section 4.3.2 of RFC 3711. */
  const EncryptionKeyLabel: uint8 := 0
  const AuthenticationKeyLabel: uint8 := 1
  const SaltingKeyLabel: uint8 := 2

  /** `SrtpStreamContextKey`. */
  datatype ContextKey = ContextKey(ssrc: uint32, remote: Endpoint)

  /** `Equals(SrtpStreamContextKey)`: the SSRCs and the endpoints agree. */
  predicate KeyEquals(a: ContextKey, b: ContextKey)
  {
    a.ssrc == b.ssrc && a.remote == b.remote
  }

  /** The operators `==` and `!=`, both through `Equals`. */
  predicate OperatorEquals(a: ContextKey, b: ContextKey) { KeyEquals(a, b) }
  predicate OperatorNotEquals(a: ContextKey, b: ContextKey) { !OperatorEquals(a, b) }

  /** What `Equals(object)` may be handed: a boxed key, or any other
      object, `null` included. */
  datatype Boxed = BoxedKey(key: ContextKey) | OtherObject

  predicate ObjectEquals(a: ContextKey, obj: Boxed)
  {
    obj.BoxedKey? && KeyEquals(a, obj.key)
  }

  /** `GetHashCode`: the hash of the pair (SSRC, endpoint), through the
      runtime's tuple hash, a parameter of the model. */
  function HashCode(tupleHash: (uint32, Endpoint) -> int32, k: ContextKey): int32
  {
    tupleHash(k.ssrc, k.remote)
  }

  /** Two keys are `Equals` exactly when they are the same key, so the
      contexts dictionary is keyed by value. */
  lemma KeyEqualsIsIdentity(a: ContextKey, b: ContextKey)
    ensures KeyEquals(a, b) <==> a == b
  {
  }

  /** `Equals` is an equivalence relation. */
  lemma KeyEqualsEquivalence(a: ContextKey, b: ContextKey, c: ContextKey)
    ensures KeyEquals(a, a)
    ensures KeyEquals(a, b) ==> KeyEquals(b, a)
    ensures KeyEquals(a, b) && KeyEquals(b, c) ==> KeyEquals(a, c)
  {
  }

  /** `==` agrees with `Equals`, `!=` is its negation, and a boxed key
      compares as the key itself while any other object is unequal. */
  lemma OperatorsAgree(a: ContextKey, b: ContextKey)
    ensures OperatorEquals(a, b) <==> KeyEquals(a, b)
    ensures OperatorNotEquals(a, b) <==> !KeyEquals(a, b)
    ensures ObjectEquals(a, BoxedKey(b)) <==> KeyEquals(a, b)
    ensures !ObjectEquals(a, OtherObject)
  {
  }

  /** Equal keys have equal hash codes, whatever the tuple hash. */
  lemma EqualKeysHashAlike(tupleHash: (uint32, Endpoint) -> int32, a: ContextKey, b: ContextKey)
    requires KeyEquals(a, b)
    ensures HashCode(tupleHash, a) == HashCode(tupleHash, b)
  {
  }

  /** The session keys of section 4.3 of RFC 3711 (`SrtpDerivedkeys`). */
  datatype SessionKeys = SessionKeys(sessionKey: Bytes, authKey: Bytes, cipherSalt: Bytes)

  /** `SrtpStreamContext`. The rollover counter is a C# `int`. */
  datatype StreamContext = StreamContext(
    ssrc: uint32,
    rollOverCounter: int32,
    previousSequenceNumber: uint16,
    keyDerivationRate: uint32,
    derivedKeys: Option<SessionKeys>)

  /** A fresh context: counter and sequence number zero, the default rate, no keys. */
  function NewContext(ssrc: uint32): (c: StreamContext)
    ensures c.ssrc == ssrc && c.rollOverCounter == 0 && c.previousSequenceNumber == 0
    ensures c.keyDerivationRate == 0 && c.derivedKeys.None?
  {
    StreamContext(ssrc, 0, 0, DefaultKeyDerivationRate, None)
  }
}
