/** `SrtpEncryptor`: the sender side of section 3.3 of RFC 3711 as the relay
    runs it. One cryptographic context per (SSRC, destination endpoint);
    per packet the index is determined (section 3.3.1), the session keys
    are derived on first use (section 4.3), the payload is encrypted in AES
    counter mode under the IV of section 4.1.1, and a 10-byte HMAC-SHA1 tag
    over the header, the ciphertext and the rollover counter is appended
    (section 4.2). AES and HMAC-SHA1 are parameters. */
module SrtpEncryptor {
  import opened Results
  import opened Bytes
  import opened Net
  import opened BigEndianUtils
  import Aes = AesCounterMode
  import opened SrtpStreamContext
  import opened SrtpPacketIndex
  import RtpPacket
  import DtlsSrtpKeys

  /** An HMAC-SHA1 value. */
  type Digest = s: Bytes | |s| == 20 witness Zeros(20)

  /** `HashUtils.HmacSha1(data, key)`, applied here as `hmac(key, data)`:
      the first argument is the key, the second the data. Only the first
      20 bytes it returns are ever read. */
  type Mac = (Bytes, Bytes) -> Digest

  /** The authentication tag length: the first 80 bits of the HMAC. */
  const AuthTagLength: nat := 10

  /** What `Encrypt` reads from an `RtpPacket`: the raw bytes, the payload
      segment's offset and contents, the SSRC and the sequence number. */
  datatype Outgoing = Outgoing(rawBytes: Bytes, payloadOffset: nat, payload: Bytes, ssrc: uint32, sequenceNumber: uint16)

  /** A parsed packet, whose payload is a view into its raw bytes. */
  function FromPacket(p: RtpPacket.RtpPacket): (o: Outgoing)
    requires p.payloadOffset + p.payloadCount <= |p.rawBytes|
    ensures o.payloadOffset <= |o.rawBytes|
    ensures o.rawBytes[..o.payloadOffset] + o.payload == p.rawBytes[..p.payloadOffset + p.payloadCount]
  {
    Outgoing(p.rawBytes, p.payloadOffset, p.Payload(), p.ssrc, p.sequenceNumber)
  }

  /** The encryptor's state: the contexts by key. */
  datatype Encryptor = Encryptor(streams: map<ContextKey, StreamContext>)

  /** The result of one `Encrypt`: the new state and the packet or the
      exception. The state changes made before an exception stay. */
  datatype Outcome = Outcome(encryptor: Encryptor, result: Result<Bytes>)

  /** `DetermineCryptoStreamContext`: the stored context, or a fresh one
      for the packet's SSRC. */
  function DetermineContext(e: Encryptor, key: ContextKey): (c: StreamContext)
    ensures key in e.streams ==> c == e.streams[key]
    ensures key !in e.streams ==> c == NewContext(key.ssrc)
  {
    if key in e.streams then e.streams[key] else NewContext(key.ssrc)
  }

  /** `a / b` on C# `long`: the quotient truncated toward zero. */
  function TruncDiv(a: int, b: int): (q: int)
    requires b > 0
    ensures a >= 0 ==> q == a / b
    ensures a < 0 ==> q == -((-a) / b)
  {
    if a >= 0 then a / b else -((-a) / b)
  }

  /** `r = (uint)(kdr == 0 ? 0 : packetIndex / kdr)`: the quotient of the
      32-bit index, cut to 32 bits. */
  function KeyDerivationR(index: int32, kdr: uint32): (r: uint32)
    ensures kdr == 0 ==> r == 0
  {
    if kdr == 0 then 0 else TruncDiv(index, kdr) % TWO32
  }

  /** The first derivation, and the refresh whenever `index mod r` is zero. */
  predicate ShouldDerive(keys: Option<SessionKeys>, r: uint32, index: int32)
  {
    keys.None? || (r > 0 && index % r == 0)
  }

  /** `key_id = keyLabel || r`: the keyLabel byte, `r` in the host's
      (little-endian) order, then two zero bytes. */
  function KeyId(keyLabel: uint8, r: uint32): (k: Bytes)
    ensures |k| == 7 && k[0] == keyLabel && k[5] == 0 && k[6] == 0
    ensures r == 0 ==> forall i | 1 <= i < 7 :: k[i] == 0
  {
    [keyLabel] + LE32(r) + [0, 0]
  }

  /** The loop that builds `x`: the salt's bytes, with the last seven
      XORed with `key_id`'s (only the salt's length of them when the salt is
      shorter). */
  function DerivationInput(salt: Bytes, keyId: Bytes): (x: Bytes)
    requires |keyId| == 7
    ensures |x| == |salt|
  {
    var start := |salt| - 7;
    seq(|salt|, i requires 0 <= i < |salt| => if i < start then salt[i] else Xor8(keyId[i - start], salt[i]))
  }

  /** `PseudoRandomFunction`: AES counter mode keyed by the master key,
      with `x` at the start of a zeroed 16-byte IV. */
  function PseudoRandomFunction(aes: Aes.Cipher, masterKey: Bytes, x: Bytes, keyLength: nat): (r: Result<Bytes>)
    ensures r.Ok? <==> |x| <= PrfInputBlockSize && Aes.KeyLengthSupported(masterKey)
    ensures r.Ok? ==> |r.value| == keyLength
  {
    var iv :- Aes.InputBlock(x);
    Aes.GenerateKeystreamSegment(aes, masterKey, iv, keyLength)
  }

  /** `DeriveKey`: the PRF applied to `key_id XOR master_salt`. */
  function DeriveKey(aes: Aes.Cipher, masterKey: Bytes, masterSalt: Bytes, r: uint32, keyLabel: uint8, keyLength: nat): (k: Result<Bytes>)
    ensures k.Ok? <==> |masterSalt| <= PrfInputBlockSize && Aes.KeyLengthSupported(masterKey)
    ensures k.Ok? ==> |k.value| == keyLength
  {
    PseudoRandomFunction(aes, masterKey, DerivationInput(masterSalt, KeyId(keyLabel, r)), keyLength)
  }

  /** `DeriveKeys`: when due, the encryption key, the authentication key
      and the salting key under labels 0, 1 and 2; otherwise, or when the
      PRF throws, the keys stay as they are. Nothing else in the context
      changes. */
  function DeriveKeys(aes: Aes.Cipher, c: StreamContext, index: int32, masterKey: Bytes, masterSalt: Bytes): (r: Result<StreamContext>)
    ensures var rr := KeyDerivationR(index, c.keyDerivationRate);
            !ShouldDerive(c.derivedKeys, rr, index) ==> r == Ok(c)
    ensures var rr := KeyDerivationR(index, c.keyDerivationRate);
            ShouldDerive(c.derivedKeys, rr, index) ==>
              (r.Ok? <==> |masterSalt| <= PrfInputBlockSize && Aes.KeyLengthSupported(masterKey))
    ensures r.Ok? ==> r.value.derivedKeys.Some? && r.value == c.(derivedKeys := r.value.derivedKeys)
    ensures r.Fail? ==> r.error == Argument || r.error == CryptoFailure
  {
    var rr := KeyDerivationR(index, c.keyDerivationRate);
    if !ShouldDerive(c.derivedKeys, rr, index) then Ok(c)
    else
      var sessionKey :- DeriveKey(aes, masterKey, masterSalt, rr, EncryptionKeyLabel, EncryptionSessionKeyLength);
      var authKey := DeriveKey(aes, masterKey, masterSalt, rr, AuthenticationKeyLabel, AuthSessionKeyLength).value;
      var cipherSalt := DeriveKey(aes, masterKey, masterSalt, rr, SaltingKeyLabel, SaltSessionKeyLength).value;
      Ok(c.(derivedKeys := Some(SessionKeys(sessionKey, authKey, cipherSalt))))
  }

  /** The IV of `EncryptPayloadWithAesCtrMode`: the salt shifted by 16 bits,
      the SSRC (as an 8-byte network-order `long`) shifted by 64 bits and
      the index (a network-order `int`) shifted by 16 bits, XORed
      right-aligned. */
  function PacketIv(salt: Bytes, ssrc: uint32, index: int32): (iv: Bytes)
  {
    Xor(Xor(ShiftLeft(salt, 16), ShiftLeft(BE64(ssrc), 64)), ShiftLeft(BE32(FromInt32(index)), 16))
  }

  /** Step 5 of section 3.3 of RFC 3711: the payload encrypted under the
      packet IV, cut to the payload's length (the XOR may come out shorter). */
  function Ciphertext(aes: Aes.Cipher, keys: SessionKeys, index: int32, o: Outgoing): (c: Result<Bytes>)
    ensures c.Ok? <==> |keys.cipherSalt| <= 14 && Aes.KeyLengthSupported(keys.sessionKey)
    ensures c.Ok? ==> |c.value| <= |o.payload|
  {
    var encrypted :- Aes.Encrypt(aes, keys.sessionKey, PacketIv(keys.cipherSalt, o.ssrc, index), o.payload);
    Ok(encrypted[..DtlsSrtpKeys.Min(|o.payload|, |encrypted|)])
  }

  /** The authentication tag of section 4.2 of RFC 3711: the first 10
      bytes of the HMAC over the authenticated portion followed by the
      network-order rollover counter. */
  function Tag(hmac: Mac, authKey: Bytes, authenticated: Bytes, roc: int32): (t: Bytes)
    ensures |t| == AuthTagLength
  {
    hmac(authKey, authenticated + BE32(FromInt32(roc)))[..AuthTagLength]
  }

  /** Steps 5 and 6 of section 3.3 of RFC 3711 for a packet under `keys`:
      the header unchanged, the ciphertext, then the tag over both and the
      rollover counter. */
  function Protect(aes: Aes.Cipher, hmac: Mac, keys: SessionKeys, roc: int32, index: int32, o: Outgoing): (r: Result<Bytes>)
    requires o.payloadOffset <= |o.rawBytes|
    ensures r.Ok? <==> |keys.cipherSalt| <= 14 && Aes.KeyLengthSupported(keys.sessionKey)
    ensures r.Ok? ==>
              var n := |r.value| - AuthTagLength;
              && o.payloadOffset <= n <= o.payloadOffset + |o.payload|
              && r.value[..o.payloadOffset] == o.rawBytes[..o.payloadOffset]
              && r.value[o.payloadOffset..n] == Ciphertext(aes, keys, index, o).value
              && r.value[n..] == Tag(hmac, keys.authKey, r.value[..n], roc)
  {
    var c :- Ciphertext(aes, keys, index, o);
    var authenticated := o.rawBytes[..o.payloadOffset] + c;
    var tag := Tag(hmac, keys.authKey, authenticated, roc);
    assert (authenticated + tag)[..|authenticated|] == authenticated;
    assert (authenticated + tag)[o.payloadOffset..|authenticated|] == c;
    Ok(authenticated + tag)
  }

  /** `Encrypt`: refuse a packet whose raw bytes end before the payload
      offset; otherwise select the context, step the index (`v` says which
      rule), derive keys if due, store the context and protect the packet. */
  function Encrypt(v: Variant, aes: Aes.Cipher, hmac: Mac, policy: DtlsSrtpKeys.SrtpPolicy,
                   e: Encryptor, o: Outgoing, remote: Endpoint): (out: Outcome)
    ensures |o.rawBytes| < o.payloadOffset ==> out == Outcome(e, Fail(InvalidOperation))
    ensures |o.rawBytes| >= o.payloadOffset ==>
              var key := ContextKey(o.ssrc, remote);
              && key in out.encryptor.streams
              && out.encryptor.streams == e.streams[key := out.encryptor.streams[key]]
    ensures out.result.Ok? ==> out.encryptor.streams[ContextKey(o.ssrc, remote)].derivedKeys.Some?
    ensures |o.rawBytes| >= o.payloadOffset && out.result.Ok? ==>
              var key := ContextKey(o.ssrc, remote);
              var step := NextIndex(v, DetermineContext(e, key), o.sequenceNumber);
              out.result == Protect(aes, hmac, out.encryptor.streams[key].derivedKeys.value, step.roc, step.index, o)
  {
    if |o.rawBytes| < o.payloadOffset then Outcome(e, Fail(InvalidOperation))
    else
      var key := ContextKey(o.ssrc, remote);
      var step := NextIndex(v, DetermineContext(e, key), o.sequenceNumber);
      match DeriveKeys(aes, step.context, step.index, policy.masterKey, policy.masterSalt)
      case Fail(err) => Outcome(Encryptor(e.streams[key := step.context]), Fail(err))
      case Ok(c) => Outcome(Encryptor(e.streams[key := c]), Protect(aes, hmac, c.derivedKeys.value, step.roc, step.index, o))
  }

  /** A packet `Encrypt` returns is the header unchanged, then a payload
      that the counter-mode keystream of the stored session key, under the
      IV of the stepped index, turns back into the original payload's first
      bytes, then the tag over both and the stepped rollover counter. */
  lemma EncryptOutput(v: Variant, aes: Aes.Cipher, hmac: Mac, policy: DtlsSrtpKeys.SrtpPolicy,
                      e: Encryptor, o: Outgoing, remote: Endpoint)
    requires |o.rawBytes| >= o.payloadOffset
    requires Encrypt(v, aes, hmac, policy, e, o, remote).result.Ok?
    ensures var out := Encrypt(v, aes, hmac, policy, e, o, remote);
            var key := ContextKey(o.ssrc, remote);
            var step := NextIndex(v, DetermineContext(e, key), o.sequenceNumber);
            var keys := out.encryptor.streams[key].derivedKeys.value;
            var r := out.result.value;
            var n := |r| - AuthTagLength;
            var iv := PacketIv(keys.cipherSalt, o.ssrc, step.index);
            && |keys.cipherSalt| <= 14 && Aes.KeyLengthSupported(keys.sessionKey)
            && o.payloadOffset <= n <= o.payloadOffset + |o.payload|
            && r[..o.payloadOffset] == o.rawBytes[..o.payloadOffset]
            && Aes.GenerateKeystreamSegment(aes, keys.sessionKey, iv, Aes.EncryptCount(|o.payload|)).Ok?
            && Aes.CtrXor(Aes.GenerateKeystreamSegment(aes, keys.sessionKey, iv, Aes.EncryptCount(|o.payload|)).value,
                          r[o.payloadOffset..n])
               == o.payload[..n - o.payloadOffset]
            && r[n..] == Tag(hmac, keys.authKey, r[..n], step.roc)
  {
    var out := Encrypt(v, aes, hmac, policy, e, o, remote);
    var key := ContextKey(o.ssrc, remote);
    var step := NextIndex(v, DetermineContext(e, key), o.sequenceNumber);
    var keys := out.encryptor.streams[key].derivedKeys.value;
    assert out.result == Protect(aes, hmac, keys, step.roc, step.index, o);
    CiphertextIsCounterMode(aes, keys, step.index, o);
  }

  /** The stored context is the selected one stepped past this packet's
      sequence number; only the keys may differ. A first packet starts from
      counter zero, a later one continues the stream's own context. */
  lemma ContextThreading(v: Variant, aes: Aes.Cipher, hmac: Mac, policy: DtlsSrtpKeys.SrtpPolicy,
                         e: Encryptor, o: Outgoing, remote: Endpoint)
    requires |o.rawBytes| >= o.payloadOffset
    ensures var key := ContextKey(o.ssrc, remote);
            var stored := Encrypt(v, aes, hmac, policy, e, o, remote).encryptor.streams[key];
            var stepped := NextIndex(v, DetermineContext(e, key), o.sequenceNumber).context;
            stored == stepped.(derivedKeys := stored.derivedKeys)
  {
  }

  /** With the default rate of zero, keys once derived are kept for every
      later packet of the stream. */
  lemma DefaultRateDerivesOnce(v: Variant, aes: Aes.Cipher, hmac: Mac, policy: DtlsSrtpKeys.SrtpPolicy,
                               e: Encryptor, o: Outgoing, remote: Endpoint)
    requires |o.rawBytes| >= o.payloadOffset
    requires var key := ContextKey(o.ssrc, remote);
             key in e.streams && e.streams[key].derivedKeys.Some? && e.streams[key].keyDerivationRate == 0
    ensures var key := ContextKey(o.ssrc, remote);
            Encrypt(v, aes, hmac, policy, e, o, remote).encryptor.streams[key].derivedKeys == e.streams[key].derivedKeys
  {
  }

  /** Every context the encryptor creates has the default rate, so the
      rate is zero in every stored context. */
  predicate DefaultRates(e: Encryptor)
  {
    forall k | k in e.streams :: e.streams[k].keyDerivationRate == DefaultKeyDerivationRate
  }

  lemma EncryptKeepsDefaultRates(v: Variant, aes: Aes.Cipher, hmac: Mac, policy: DtlsSrtpKeys.SrtpPolicy,
                                 e: Encryptor, o: Outgoing, remote: Endpoint)
    requires DefaultRates(e)
    ensures DefaultRates(Encrypt(v, aes, hmac, policy, e, o, remote).encryptor)
  {
    var key := ContextKey(o.ssrc, remote);
    if |o.rawBytes| >= o.payloadOffset {
      ContextThreading(v, aes, hmac, policy, e, o, remote);
    }
  }

  /** For a salt of at least seven bytes, the loop computes the
      right-aligned exclusive or of section 4.3.1 of RFC 3711. */
  lemma DerivationInputIsXor(salt: Bytes, keyId: Bytes)
    requires |keyId| == 7 && |salt| >= 7
    ensures DerivationInput(salt, keyId) == Xor(salt, keyId)
  {
    var x, y := DerivationInput(salt, keyId), Xor(salt, keyId);
    forall i | 0 <= i < |salt|
      ensures x[i] == y[i]
    {
      if i >= |salt| - 7 {
        Xor8Commutes(keyId[i - (|salt| - 7)], salt[i]);
      }
    }
  }

  /** With `r = 0`, `x` is the salt with only the keyLabel mixed in, at the
      seventh byte from the end. */
  lemma ZeroRateInput(salt: Bytes, keyLabel: uint8)
    requires |salt| >= 7
    ensures var x := DerivationInput(salt, KeyId(keyLabel, 0));
            forall i | 0 <= i < |salt| ::
              x[i] == if i == |salt| - 7 then Xor8(keyLabel, salt[i]) else salt[i]
  {
    var x := DerivationInput(salt, KeyId(keyLabel, 0));
    forall i | |salt| - 7 < i < |salt|
      ensures x[i] == salt[i]
    {
      Xor8Zero(salt[i]);
    }
  }

  /** The PRF's IV is `x` followed by zero bytes, `x * 2^(128 - 8|x|)`
      (`ShiftUp(h, k)` is `h * 2^k`), so `x * 2^16` for a 14-byte salt as
      section 4.3.3 of RFC 3711 asks; the output is the counter-mode
      keystream under that IV. */
  lemma PrfIvIsShifted(aes: Aes.Cipher, masterKey: Bytes, x: Bytes, keyLength: nat)
    requires |x| <= PrfInputBlockSize && Aes.KeyLengthSupported(masterKey)
    ensures var iv := Aes.InputBlock(x).value;
            && BEValue(iv) == ShiftUp(BEValue(x), 8 * (PrfInputBlockSize - |x|))
            && PseudoRandomFunction(aes, masterKey, x, keyLength) == Aes.GenerateKeystreamSegment(aes, masterKey, iv, keyLength)
  {
    Aes.InputBlockValue(x);
  }

  /** Derived session keys have the lengths of the relay's constants:
      16, 20 and 14 bytes. */
  lemma SessionKeyLengths(aes: Aes.Cipher, c: StreamContext, index: int32, masterKey: Bytes, masterSalt: Bytes)
    requires c.derivedKeys.None?
    requires |masterSalt| <= PrfInputBlockSize && Aes.KeyLengthSupported(masterKey)
    ensures var r := DeriveKeys(aes, c, index, masterKey, masterSalt);
            && r.Ok?
            && |r.value.derivedKeys.value.sessionKey| == EncryptionSessionKeyLength
            && |r.value.derivedKeys.value.authKey| == AuthSessionKeyLength
            && |r.value.derivedKeys.value.cipherSalt| == SaltSessionKeyLength
  {
  }

  /** The packet IV is 16 bytes with its low two bytes zero, the room the
      counter takes. */
  lemma PacketIvShape(salt: Bytes, ssrc: uint32, index: int32)
    requires |salt| <= 14
    ensures var iv := PacketIv(salt, ssrc, index);
            |iv| == 16 && iv[14] == 0 && iv[15] == 0
  {
    var a, b, c := ShiftLeft(salt, 16), ShiftLeft(BE64(ssrc), 64), ShiftLeft(BE32(FromInt32(index)), 16);
    var ab := Xor(a, b);
    var iv := Xor(ab, c);
    XorRightAligned(a, b, 0);
    XorRightAligned(a, b, 1);
    XorRightAligned(ab, c, 0);
    XorRightAligned(ab, c, 1);
    Xor8Zero(0);
  }

  /** The packet IV is the 128-bit integer
      `(k_s * 2^16) XOR (SSRC * 2^64) XOR (i * 2^16)` of section 4.1.1 of
      RFC 3711, with `i` the 32-bit index (`ShiftUp(h, k)` is `h * 2^k`,
      `ShiftUpIsProduct`). */
  lemma PacketIvValue(salt: Bytes, ssrc: uint32, index: int32)
    requires |salt| == SaltSessionKeyLength
    ensures BEValue(PacketIv(salt, ssrc, index))
            == XorBits(XorBits(ShiftUp(BEValue(salt), 16), ShiftUp(ssrc, 64), 128), ShiftUp(FromInt32(index), 16), 128)
  {
    var a, b, c := ShiftLeft(salt, 16), ShiftLeft(BE64(ssrc), 64), ShiftLeft(BE32(FromInt32(index)), 16);
    assert BEValue(a) == ShiftUp(BEValue(salt), 16) by {
      ShiftLeftShifts(salt, 2);
    }
    assert BEValue(b) == ShiftUp(ssrc, 64) by {
      ShiftLeftShifts(BE64(ssrc), 8);
      BE64Value(ssrc);
    }
    assert BEValue(c) == ShiftUp(FromInt32(index), 16) by {
      ShiftLeftShifts(BE32(FromInt32(index)), 2);
      BE32Value(FromInt32(index));
    }
    var ab := Xor(a, b);
    assert |a| == 16 && |b| == 16 && |c| == 6 && |ab| == 16;
    assert BEValue(ab) == XorBits(BEValue(a), BEValue(b), 128) by {
      XorValue(a, b);
    }
    assert BEValue(Xor(ab, c)) == XorBits(BEValue(ab), BEValue(c), 128) by {
      XorValue(ab, c);
    }
  }

  /** Under the packet IV, counter block `j` is the IV plus `j`: the
      keystream of section 4.1.1 of RFC 3711 for the first 2^16 blocks. */
  lemma PacketCounterBlocks(salt: Bytes, ssrc: uint32, index: int32, j: nat)
    requires |salt| <= 14 && j < TWO16
    ensures var iv := PacketIv(salt, ssrc, index);
            && Aes.InputBlock(iv).Ok?
            && BEValue(Aes.CounterBlock(Aes.InputBlock(iv).value, j)) == BEValue(iv) + j
  {
    var iv := PacketIv(salt, ssrc, index);
    PacketIvShape(salt, ssrc, index);
    assert Aes.InputBlock(iv).value == iv;
    Aes.CounterBlockIsSum(iv, j);
  }

  /** The ciphertext is the counter-mode encryption of the payload's first
      bytes under the packet IV, so XORing the same keystream in again gives
      the payload back. */
  lemma CiphertextIsCounterMode(aes: Aes.Cipher, keys: SessionKeys, index: int32, o: Outgoing)
    requires |keys.cipherSalt| <= 14 && Aes.KeyLengthSupported(keys.sessionKey)
    ensures var c := Ciphertext(aes, keys, index, o).value;
            var iv := PacketIv(keys.cipherSalt, o.ssrc, index);
            var ks := Aes.GenerateKeystreamSegment(aes, keys.sessionKey, iv, Aes.EncryptCount(|o.payload|)).value;
            && c == Aes.CtrXor(ks, o.payload)[..|c|]
            && Aes.CtrXor(ks, c) == o.payload[..|c|]
  {
    var iv := PacketIv(keys.cipherSalt, o.ssrc, index);
    PacketIvShape(keys.cipherSalt, o.ssrc, index);
    var ks := Aes.GenerateKeystreamSegment(aes, keys.sessionKey, iv, Aes.EncryptCount(|o.payload|)).value;
    var c := Ciphertext(aes, keys, index, o).value;
    var full := Aes.CtrXor(ks, o.payload);
    assert c == full[..|c|] by {
      Aes.EncryptPrefix(aes, keys.sessionKey, iv, o.payload);
    }
    Aes.CtrXorPrefix(ks, o.payload, |c|);
  }
}
