# Subspace media relay core, in Dafny

Subspace is a WebRTC relay: it takes RTP video from an RTSP camera and forwards it, encrypted with SRTP, to browser peers. Each peer is reached through ICE/STUN and keyed by a DTLS-SRTP handshake. This project models the relay's deterministic byte-level core as pure Dafny functions and proves properties about them:

- the RTP header decoder;
- the RTCP packet classes, their parser and serializer, and the compound-datagram loops of the RTCP client (RFC 3550);
- the RTP/RTCP split of RFC 5761;
- the STUN record, its reader and writer, the MESSAGE-INTEGRITY and FINGERPRINT layouts, and the binding-request handler (RFC 5389);
- the short-term credential store of RFC 5245;
- the SRTP transform bookkeeping of RFC 3711: stream contexts, roll-over counter and packet index, key derivation inputs, IVs and counter blocks, output layout;
- the DTLS-SRTP key split and first-byte demultiplexer of RFC 5764;
- the relay's peer registry and send gating;
- ICE priority and credential generation;
- the RTSP `key=value` parser and lower-case hex;
- the SDP parser and builders of RFC 4566.

Every module corresponds to one source file, or to a small group of them:

- `Results`, `Bytes`, `Text`, `Net` (results.dfy, bytes.dfy, text.dfy, net.dfy): the .NET error kinds as a `Result`; bytes, big- and little-endian words; `string.Split`/`Join`/`IndexOf`/`Trim`, integer `Parse`, `StringReader.ReadLine`; IPv4 endpoints.
- `RtpPacket` (rtp_packet.dfy): `RtpPacketParser.ParseRtpPacket`.
- `RtpHandler` (rtp_handler.dfy): `IsRtcpPacket` and the RTP/RTCP dispatch.
- `SpanWrites` (span_writes.dfy): a writer's cursor through a fixed-size `Span<byte>`, and the exception of its first write past the end.
- `Rtcp`, `RtcpParser`, `RtcpSerializer` (rtcp.dfy, rtcp_parser.dfy, rtcp_serializer.dfy): the RTCP packet classes and their length formulas, `RtcpPacketParser`, `RtcpPacketSerializer`.
- `RtcpCodec`, `SdesCodec` (rtcp_codec.dfy, sdes_codec.dfy): what the parser makes of the serializer's receiver reports and source descriptions.
- `RtcpClient` (rtcp_client.dfy): the split loop of `ReceiveAsync` and the buffer of `SendAsync`.
- `BigEndianUtils`, `AesCounterMode` (big_endian_utils.dfy, aes_counter_mode.dfy): the byte helpers and AES counter mode, with the AES block as a parameter.
- `SrtpStreamContext`, `SrtpPacketIndex`, `SrtpEncryptor` (srtp_stream_context.dfy, srtp_packet_index.dfy, srtp_encryptor.dfy): `SrtpStreamContextKey`, the roll-over counter, and `SrtpEncryptor`.
- `DtlsSrtpKeys`, `DtlsSrtpMultiplexer` (dtls_srtp_keys.dfy, dtls_multiplexer.dfy): `DtlsSrtpDerivedKeys`, `DtlsSrtpUtils.CreateSrtpPolicy`, `DtlsSrtpMultiplexer`.
- `StunRecord`, `StunRecordReader`, `StunRecordWriter`, `StunChecks` (stun_record.dfy, stun_reader.dfy, stun_writer.dfy, stun_checks.dfy): `StunRecord` and its attributes, the reader and writer, and what the receiver of an emitted message can check.
- `StunUsers`, `StunHandler` (stun_users.dfy, stun_handler.dfy): `IceInMemoryStunUserProvider` and `StunHandler`.
- `WebRtcConnectionManager`, `WebRtcServer` (webrtc_connection_manager.dfy, webrtc_server.dfy): the peer registry, and the receive loop and send gating of the server.
- `IceUtils`, `RtspHashUtils`, `KeyValueParser` (ice_utils.dfy, rtsp_hash_utils.dfy, key_value_parser.dfy): `IceUtils`, `HashUtils`, `KeyValueParser`.
- `SendReceiveMode`, `SdpModel`, `SdpParser`, `SdpMediaBuilder`, `SdpBuilder`, `SdpRoundTrip` (send_receive_mode.dfy, sdp_model.dfy, sdp_parser.dfy, sdp_media_builder.dfy, sdp_builder.dfy, sdp_round_trip.dfy): the SDP classes, `SdpParser`, both builders, and what the parser recovers from the builders' text.

Modelling conventions:

- **Exceptions.** Every exception the code can throw becomes a `Fail` of a `Result`, carrying the .NET exception kind: out of range, argument, argument null, not supported, null reference, key not found, duplicate key, format, overflow, invalid operation, cryptographic failure.
- **Fixed-width integers.** They are subset types of `int`. Casts, wrap-around and truncation are written out where the code has them.
- **Mutation.** Where the code mutates an object or a buffer, the function returns the new value. A `Span<byte>` write returns the whole new buffer.
- **Crypto and randomness.** AES, HMAC-SHA1, CRC-32, MD5 and SASLprep are function-typed parameters. The result types of AES, HMAC-SHA1 and CRC-32 fix their lengths; MD5 and SASLprep are arbitrary functions from bytes or text to bytes. The random number generator, the clock and GUID generation are parameters too.
- **Defects.** Where the code has an evident defect, the model follows the code as written. A separate corrected definition carries the intended property, and both are listed under "## Findings". Where a defect sits inside a shared routine, that routine takes a parameter choosing between the two readings: `RtcpParser.Reading` (`AsWritten`/`AtCursor`) and `RtcpSerializer.Writing` (`AsWritten`/`Corrected`).

## Model

| member | source | states |
|---|---|---|
| RtpPacket.Parse | src/Subspace.Rtp/RtpPacketParser.cs:9-48 | a datagram parses exactly when it holds the 12-byte fixed header plus four bytes per announced contributing source; version, count and payload type stay within their bit widths; the payload is the whole rest of the buffer; a shorter buffer is an out-of-range error |
| RtpPacket.ParseEncodedFlags | src/Subspace.Rtp/RtpPacketParser.cs:12-26 | the version, padding, extension, marker and payload-type bits of a header laid out as section 5.1 of RFC 3550 read back as written |
| RtpPacket.ParseEncodedWords | src/Subspace.Rtp/RtpPacketParser.cs:28-33 | the sequence number, timestamp and SSRC read back big-endian as written |
| RtpPacket.ParseEncodedCsrcs | src/Subspace.Rtp/RtpPacketParser.cs:35-42 | the announced contributing sources read back as the signed words written |
| RtpPacket.ParseEncodedPayload | src/Subspace.Rtp/RtpPacketParser.cs:44-45 | the payload view is exactly the bytes that follow the header |
| RtpPacket.ParseEncodedHeader | src/Subspace.Rtp/RtpPacketParser.cs:9-48 | round trip: for every valid header and any payload, parsing the encoded packet recovers every header field and that payload |
| RtpHandler.IsRtcpPacket | src/Subspace.Rtp/RtpHandler.cs:46-53 | a datagram counts as RTCP exactly when its second byte is in 194-199, 200-204 or 209-223; a datagram shorter than two bytes throws |
| RtpHandler.ProcessRequest | src/Subspace.Rtp/RtpHandler.cs:19-32 | an RTCP-range datagram goes to the RTCP parser and yields a packet of the type its second byte names; any other datagram goes to the RTP parser over the same bytes |
| RtpHandler.RtcpTypesAreRtcp | src/Subspace.Rtp/RtpHandler.cs:46-53 | every packet type the RTCP parser knows (200-204) is classified as RTCP |
| RtpHandler.RtpPayloadTypeClassification | src/Subspace.Rtp/RtpHandler.cs:46-53 | an RTP packet is misclassified as RTCP exactly when its marker is set and its payload type is 66-76 or 81-95; payload types outside 64-95 are never taken for RTCP |
| RtpHandler.RtpPacketDispatched | src/Subspace.Rtp/RtpHandler.cs:19-32 | an RTP packet outside the shadowed range reaches the RTP parser and its SSRC, sequence number, payload type and payload come out as sent |
| RtpHandler.ReceiverReportDispatched | src/Subspace.Rtp/RtpHandler.cs:19-32 | a receiver report written by the relay's serializer is classified as RTCP and yields what the RTCP parser reads from it |
| RtpHandler.ShortDatagramThrows | src/Subspace.Rtp/RtpHandler.cs:46-48 | a one-byte datagram cannot be classified: the handler throws |
| BigEndianUtils.ShiftLeft | src/Subspace.Rtp/BigEndianUtils.cs:7-16 | the input followed by `count / 8` zero bytes (whole bytes only; leftover bits are dropped) |
| BigEndianUtils.ShiftLeftValue | src/Subspace.Rtp/BigEndianUtils.cs:7-16 | read as a big-endian number, the result is the input multiplied by 2^(8·(count/8)) |
| BigEndianUtils.Xor | src/Subspace.Rtp/BigEndianUtils.cs:18-46 | the result is as long as the longer operand |
| BigEndianUtils.XorRightAligned | src/Subspace.Rtp/BigEndianUtils.cs:25-43 | the operands are aligned at their last bytes: where both have a byte the output is their exclusive or, and where only one does it is copied |
| BigEndianUtils.XorValue | src/Subspace.Rtp/BigEndianUtils.cs:18-46 | read as big-endian numbers, the result is the bitwise exclusive or of the two operands |
| BigEndianUtils.XorCommutes | src/Subspace.Rtp/BigEndianUtils.cs:18-46 | the order of the operands does not matter |
| BigEndianUtils.XorCancel | src/Subspace.Rtp/BigEndianUtils.cs:18-46 | applying the shorter operand twice gives the longer one back |
| BigEndianUtils.XorZeros | src/Subspace.Rtp/BigEndianUtils.cs:18-46 | an exclusive or with zero bytes no longer than the input changes nothing |
| AesCounterMode.InputBlock | src/Subspace.Rtp/Srtp/AesCounterMode.cs:47-49 | the IV is copied to the start of a zeroed 16-byte block; an IV longer than a block is an argument error |
| AesCounterMode.InputBlockValue | src/Subspace.Rtp/Srtp/AesCounterMode.cs:47-49 | read as a 128-bit number, the input block is the IV shifted up to the block's high end |
| AesCounterMode.CounterBlock | src/Subspace.Rtp/Srtp/AesCounterMode.cs:71-73 | the block for counter i keeps the IV block's first 14 bytes and holds i mod 2^16 big-endian in bytes 14-15 |
| AesCounterMode.CounterBlockIsSum | src/Subspace.Rtp/Srtp/AesCounterMode.cs:69-78 | when the IV block ends in two zero bytes (as every SRTP IV does), counter block i is IV + i, the counter sequence of section 4.1.1 of RFC 3711 |
| AesCounterMode.BlockCount | src/Subspace.Rtp/Srtp/AesCounterMode.cs:55-61 | the loop encrypts the fewest whole blocks that cover the requested count |
| AesCounterMode.Blocks | src/Subspace.Rtp/Srtp/AesCounterMode.cs:63-79 | the encrypted counter blocks, 16 bytes each |
| AesCounterMode.GenerateKeystreamSegment | src/Subspace.Rtp/Srtp/AesCounterMode.cs:45-82 | succeeds exactly when the IV fits a block and the key is 128, 192 or 256 bits; an over-long IV is an argument error, a bad key a cryptographic error; the segment has exactly the requested length |
| AesCounterMode.KeystreamAt | src/Subspace.Rtp/Srtp/AesCounterMode.cs:45-82 | keystream byte j is byte j mod 16 of the cipher's output for counter block j / 16 |
| AesCounterMode.KeystreamPrefix | src/Subspace.Rtp/Srtp/AesCounterMode.cs:45-82 | under one key and IV, a shorter segment is a prefix of a longer one |
| AesCounterMode.WideXor | src/Subspace.Rtp/Srtp/AesCounterMode.cs:22 | the exclusive or of two little-endian two's-complement integers, byte by byte with sign extension of the shorter one |
| AesCounterMode.Minimal | src/Subspace.Rtp/Srtp/AesCounterMode.cs:22 | the minimal two's-complement encoding drops only trailing sign bytes and keeps at least one byte |
| AesCounterMode.Encrypt | src/Subspace.Rtp/Srtp/AesCounterMode.cs:16-23 | succeeds exactly when the keystream can be generated; the output is between 1 byte and the keystream's length, which exceeds the input by at least 32 bytes |
| AesCounterMode.EncryptPrefix | src/Subspace.Rtp/Srtp/AesCounterMode.cs:16-23 | over the input's length, every output byte the integer exclusive or keeps is the counter-mode ciphertext byte |
| AesCounterMode.EncryptFullLength | src/Subspace.Rtp/Srtp/AesCounterMode.cs:16-23 | when the keystream's last byte is neither 0x00 nor 0xFF the output is the whole keystream segment, its first bytes the counter-mode ciphertext: the ciphertext comes out at least 32 bytes longer than the plaintext |
| AesCounterMode.WideXorIsCtrXor | src/Subspace.Rtp/Srtp/AesCounterMode.cs:22 | over the input's bytes, the integer exclusive or agrees with plain counter-mode combination |
| AesCounterMode.CtrXor | src/Subspace.Rtp/Srtp/AesCounterMode.cs:16-23 | counter-mode combination as section 4.1 of RFC 3711 defines it: output as long as the payload, each byte the payload byte XOR the keystream byte |
| AesCounterMode.CtrXorInvolution | src/Subspace.Rtp/Srtp/AesCounterMode.cs:16-23 | applying the same keystream twice gives the payload back: decryption inverts encryption |
| AesCounterMode.CtrXorPrefix | src/Subspace.Rtp/Srtp/AesCounterMode.cs:16-23 | decrypting a prefix of a ciphertext yields the same prefix of the payload |
| SrtpStreamContext.NewContext | src/Subspace.Rtp/Srtp/SrtpEncryptor.cs:191-194 | a fresh context has the packet's SSRC, counter and last sequence number zero, the default derivation rate of zero and no session keys |
| SrtpStreamContext.KeyEqualsIsIdentity | src/Subspace.Rtp/Srtp/SrtpStreamContextKey.cs:18-19 | two context keys are `Equals` exactly when their SSRCs and endpoints are the same, so the key is the pair itself |
| SrtpStreamContext.KeyEqualsEquivalence | src/Subspace.Rtp/Srtp/SrtpStreamContextKey.cs:18-19 | `Equals` is reflexive, symmetric and transitive |
| SrtpStreamContext.OperatorsAgree | src/Subspace.Rtp/Srtp/SrtpStreamContextKey.cs:16-29 | `==` agrees with `Equals`, `!=` is its negation, and the object overload is true only for a boxed equal key |
| SrtpStreamContext.EqualKeysHashAlike | src/Subspace.Rtp/Srtp/SrtpStreamContextKey.cs:15-19 | equal keys have equal hash codes, whatever hash the tuple uses |
| SrtpPacketIndex.Increment | src/Subspace.Rtp/Srtp/SrtpEncryptor.cs:135 | the counter grows by one below the 32-bit signed maximum and wraps past it |
| SrtpPacketIndex.Index | src/Subspace.Rtp/Srtp/SrtpEncryptor.cs:140 | the low 16 bits of the index are always the sequence number; for a counter below 2^15 the index is counter·2^16 + sequence number |
| SrtpPacketIndex.AsWrittenStep | src/Subspace.Rtp/Srtp/SrtpEncryptor.cs:131-143 | the counter goes up whenever the sequence number is below the previous one, by any amount, and the previous sequence number is always replaced |
| SrtpPacketIndex.CorrectedStep | src/Subspace.Rtp/Srtp/SrtpEncryptor.cs:131-143 | the estimate of Appendix A of RFC 3711: the index uses the guessed counter, and the context changes only to record a new highest index |
| SrtpPacketIndex.CorrectedIsClosest | src/Subspace.Rtp/Srtp/SrtpEncryptor.cs:131-143 | the corrected counter yields, among all counters, the index closest to the highest index seen, and past the first 2^15 indices it is at most 2^15 away |
| SrtpPacketIndex.CorrectedKeepsHighest | src/Subspace.Rtp/Srtp/SrtpEncryptor.cs:131-143 | after a corrected step the context holds the larger of the old highest index and the packet's index |
| SrtpPacketIndex.InOrderAgrees | src/Subspace.Rtp/Srtp/SrtpEncryptor.cs:131-143 | for a packet that follows the previous one in order, the relay's step and the corrected step agree exactly |
| SrtpPacketIndex.Indices | src/Subspace.Rtp/Srtp/SrtpEncryptor.cs:54 | one index per packet of a run, each step threaded through the context |
| SrtpPacketIndex.WrapExample | src/Subspace.Rtp/Srtp/SrtpEncryptor.cs:131-143 | across a sequence-number wrap (65534, 65535, 0, 1) both steps give the consecutive indices 65534-65537 |
| SrtpPacketIndex.AsWrittenReorderBumpsRoc | src/Subspace.Rtp/Srtp/SrtpEncryptor.cs:133-136 | as written, packets 10, 9, 11 get indices 10, 65545, 65547: one late packet moves the whole stream up a roll-over |
| SrtpPacketIndex.CorrectedReorderKeepsIndex | src/Subspace.Rtp/Srtp/SrtpEncryptor.cs:131-143 | corrected, packets 10, 9, 11 keep the indices 10, 9, 11 |
| SrtpEncryptor.FromPacket | src/Subspace.Rtp/Srtp/SrtpEncryptor.cs:79-85 | the header bytes before the payload offset followed by the payload view are the packet's bytes up to the end of the payload |
| SrtpEncryptor.DetermineContext | src/Subspace.Rtp/Srtp/SrtpEncryptor.cs:182-198 | the stored context for the (SSRC, endpoint) key, or a fresh context for the packet's SSRC |
| SrtpEncryptor.TruncDiv | src/Subspace.Rtp/Srtp/SrtpEncryptor.cs:235 | C# integer division: the quotient rounded toward zero, for negative dividends too |
| SrtpEncryptor.KeyDerivationR | src/Subspace.Rtp/Srtp/SrtpEncryptor.cs:233-235 | r is zero whenever the derivation rate is zero, as the "a DIV 0 = 0" convention of section 4.3.1 of RFC 3711 says |
| SrtpEncryptor.KeyId | src/Subspace.Rtp/Srtp/SrtpEncryptor.cs:272-276 | the seven key-id bytes are the label, then r in the host's little-endian byte order, then two zero bytes; with r zero only the label is non-zero |
| SrtpEncryptor.DerivationInput | src/Subspace.Rtp/Srtp/SrtpEncryptor.cs:278-292 | the derivation input is as long as the master salt |
| SrtpEncryptor.DerivationInputIsXor | src/Subspace.Rtp/Srtp/SrtpEncryptor.cs:278-292 | for a salt of at least seven bytes the loop is the right-aligned exclusive or of key id and salt |
| SrtpEncryptor.ZeroRateInput | src/Subspace.Rtp/Srtp/SrtpEncryptor.cs:272-292 | with r zero the input is the salt with only the label mixed into its seventh byte from the end |
| SrtpEncryptor.PseudoRandomFunction | src/Subspace.Rtp/Srtp/SrtpEncryptor.cs:311-318 | succeeds exactly when the input fits the 16-byte block and the key size is supported; it yields exactly the requested number of bytes |
| SrtpEncryptor.PrfIvIsShifted | src/Subspace.Rtp/Srtp/SrtpEncryptor.cs:311-318 | the PRF is the counter-mode keystream under the IV x·2^(128-8·\|x\|), which for the 14-byte salt is x·2^16 as section 4.3.3 of RFC 3711 specifies |
| SrtpEncryptor.DeriveKey | src/Subspace.Rtp/Srtp/SrtpEncryptor.cs:255-297 | succeeds exactly when the salt fits a block and the key size is supported; the key has the requested length |
| SrtpEncryptor.DeriveKeys | src/Subspace.Rtp/Srtp/SrtpEncryptor.cs:211-253 | keys are derived when none exist yet or when r > 0 divides the index, and otherwise the context is returned unchanged; on success only the keys change; failures are argument or cryptographic errors |
| SrtpEncryptor.SessionKeyLengths | src/Subspace.Rtp/Srtp/SrtpEncryptor.cs:244-252 | the first derivation yields a 16-byte encryption key, a 20-byte authentication key and a 14-byte salt |
| SrtpEncryptor.PacketIvShape | src/Subspace.Rtp/Srtp/SrtpEncryptor.cs:111-114 | the packet IV is 16 bytes and ends in two zero bytes, the room the block counter needs |
| SrtpEncryptor.PacketIvValue | src/Subspace.Rtp/Srtp/SrtpEncryptor.cs:106-114 | the IV is the integer (k_s·2^16) XOR (SSRC·2^64) XOR (i·2^16) of section 4.1.1 of RFC 3711 |
| SrtpEncryptor.PacketCounterBlocks | src/Subspace.Rtp/Srtp/SrtpEncryptor.cs:111-116 | under a packet IV, counter block j is IV + j |
| SrtpEncryptor.Ciphertext | src/Subspace.Rtp/Srtp/SrtpEncryptor.cs:79-87 | succeeds exactly when the session salt fits and the key size is supported; never longer than the payload |
| SrtpEncryptor.CiphertextIsCounterMode | src/Subspace.Rtp/Srtp/SrtpEncryptor.cs:79-87 | the ciphertext is the counter-mode encryption of the payload under the packet's keystream, and decrypting it gives the payload back |
| SrtpEncryptor.Tag | src/Subspace.Rtp/Srtp/SrtpEncryptor.cs:89-95 | the authentication tag is the first 10 bytes of the HMAC |
| SrtpEncryptor.Protect | src/Subspace.Rtp/Srtp/SrtpEncryptor.cs:79-98 | the protected packet is the header bytes unchanged, then the ciphertext, then the tag computed over exactly those bytes and the roll-over counter |
| SrtpEncryptor.Encrypt | src/Subspace.Rtp/Srtp/SrtpEncryptor.cs:28-99 | a packet whose raw bytes end before the payload is refused with no state change; otherwise only the packet's context entry changes, a successful call leaves it with session keys, and the protected bytes are those of the packet under the stored session keys at the stepped index and roll-over counter |
| SrtpEncryptor.EncryptOutput | src/Subspace.Rtp/Srtp/SrtpEncryptor.cs:28-99 | a successful encryption keeps the header, carries the payload (up to the raw length) in counter mode under the stored session keys, so the same keystream recovers it, and ends with the authentication tag of everything before it under the stored authentication key and the roll-over counter |
| SrtpEncryptor.ContextThreading | src/Subspace.Rtp/Srtp/SrtpEncryptor.cs:47-67 | the stored context is the selected one stepped past the packet's sequence number, with only the keys possibly refreshed |
| SrtpEncryptor.DefaultRateDerivesOnce | src/Subspace.Rtp/Srtp/SrtpEncryptor.cs:233-242 | at the default rate of zero, keys once derived are never derived again |
| SrtpEncryptor.EncryptKeepsDefaultRates | src/Subspace.Rtp/Srtp/SrtpEncryptor.cs:182-198 | every context the encryptor holds keeps the default rate |
| DtlsSrtpKeys.ReadBytes | src/Subspace.Dtls/DtlsSrtpDerivedKeys.cs:27-34 | a read returns the next n bytes when the stream holds them and fewer, never an exception, when it runs out |
| DtlsSrtpKeys.Derive | src/Subspace.Dtls/DtlsSrtpDerivedKeys.cs:25-35 | the four parts are read in the order client key, server key, client salt, server salt, each at most its agreed length |
| DtlsSrtpKeys.DeriveCoversPrefix | src/Subspace.Dtls/DtlsSrtpDerivedKeys.cs:25-35 | the split neither drops nor repeats a byte: the four parts back to back are the material's first 2·(key + salt) bytes, or all of it when shorter |
| DtlsSrtpKeys.DeriveLayout | src/Subspace.Dtls/DtlsSrtpDerivedKeys.cs:25-35 | round trip with the exporter layout of section 4.2 of RFC 5764: material laid out from four parts of the agreed sizes splits back into exactly those parts, whatever follows |
| DtlsSrtpKeys.CreateSrtpPolicy | src/Subspace.Dtls/DtlsSrtpUtils.cs:7-18 | the relay's policy holds at most a 16-byte master key and a 14-byte master salt |
| DtlsSrtpKeys.PolicyOffsets | src/Subspace.Dtls/DtlsSrtpUtils.cs:7-18 | with the full 60 bytes, the relay, the DTLS server, takes the server-write key at bytes 16-31 and the server-write salt at bytes 46-59 |
| DtlsSrtpKeys.ShortMaterialTruncates | src/Subspace.Dtls/DtlsSrtpUtils.cs:7-18 | material shorter than 32 bytes yields a short key and an empty salt rather than an error |
| DtlsSrtpMultiplexer.DetermineProtocol | src/Subspace.Dtls/DtlsSrtpMultiplexer.cs:69-85 | the first byte decides: 128-191 is RTP, 20-63 is DTLS, 0-1 is STUN, as section 5.1.2 of RFC 5764 lays out; an empty datagram is unknown |
| DtlsSrtpMultiplexer.Route | src/Subspace.Dtls/DtlsSrtpMultiplexer.cs:43-64 | a datagram is handed to the handler of its protocol, and dropped exactly when the protocol is unknown |
| DtlsSrtpMultiplexer.VersionTwoGoesToRtp | src/Subspace.Dtls/DtlsSrtpMultiplexer.cs:69-85 | any datagram with version 2 in its top two bits goes to the RTP handler |
| DtlsSrtpMultiplexer.RtpHeaderRouted | src/Subspace.Dtls/DtlsSrtpMultiplexer.cs:43-85 | every version-2 RTP packet laid out as RFC 3550 says reaches the RTP handler |
| DtlsSrtpMultiplexer.RtcpPacketRouted | src/Subspace.Dtls/DtlsSrtpMultiplexer.cs:43-85 | every receiver report and source description the relay's serializer writes reaches the RTP handler |
| DtlsSrtpMultiplexer.DtlsRecordRouted | src/Subspace.Dtls/DtlsSrtpMultiplexer.cs:43-85 | a DTLS record of any of the four content types 20-23 reaches the DTLS handler |
| DtlsSrtpMultiplexer.StunMessageRouted | src/Subspace.Dtls/DtlsSrtpMultiplexer.cs:43-85 | a STUN message whose type is below 0x200 reaches the STUN handler |
| DtlsSrtpMultiplexer.OtherBytesDropped | src/Subspace.Dtls/DtlsSrtpMultiplexer.cs:43-85 | datagrams starting with 2-19, 64-127 or 192-255 reach no handler |
| IceUtils.GetRandomTieBreaker | src/Subspace.Ice/IceUtils.cs:56-61 | the tie-breaker is the eight random bytes read as a little-endian 64-bit number |
| IceUtils.TieBreakerCoversAll | src/Subspace.Ice/IceUtils.cs:56-61 | every 64-bit value is drawn by exactly one choice of the eight bytes, so the tie-breaker is uniform when the bytes are |
| IceUtils.PriorityIsSum | src/Subspace.Ice/IceUtils.cs:63-71 | for component IDs 1-255 the bitwise or is the sum 2^24·type + 2^8·local + (256 - component) of section 4.1.2.1 of RFC 5245: no field overlaps another |
| IceUtils.PriorityBits | src/Subspace.Ice/IceUtils.cs:70 | the type preference occupies the bits above 24 and the rest is the or of the two lower fields |
| IceUtils.HostPriorityExample | src/Subspace.Ice/IceUtils.cs:68-71 | type 126, local 65535, component 1 give 0x7EFFFFFF |
| IceUtils.PrioritySign | src/Subspace.Ice/IceUtils.cs:68-71 | the 32-bit signed priority is non-negative exactly when the type preference is below 128 |
| IceUtils.Pick | src/Subspace.Ice/IceUtils.cs:48-54 | one character per random draw, the alphabet's entry at the drawn index |
| IceUtils.GenerateIceUsernamePassword | src/Subspace.Ice/IceUtils.cs:26-46 | a 4-character username fragment and a 22-character password, every character from the alphabet |
| IceUtils.EveryCredentialReachable | src/Subspace.Ice/IceUtils.cs:26-46 | conversely, every pair of strings of those lengths over the alphabet is produced by some draws |
| IceUtils.AlphabetIsIceChar | src/Subspace.Ice/IceUtils.cs:9 | every character of the alphabet belongs to the `ice-char` grammar of section 15.1 of RFC 5245 |
| IceUtils.AsWrittenAlphabetShape | src/Subspace.Ice/IceUtils.cs:9 | the alphabet as written has 39 entries, lists '0' twice and holds no lower-case letter |
| IceUtils.AsWrittenTooFewCredentials | src/Subspace.Ice/IceUtils.cs:9-46 | with that alphabet there are fewer than 2^24 usernames and fewer than 2^128 passwords, short of the randomness section 15.4 of RFC 5245 requires |
| IceUtils.CorrectedAlphabetDistinct | src/Subspace.Ice/IceUtils.cs:9 | the full `ice-char` alphabet has 64 distinct characters |
| IceUtils.CorrectedEnoughCredentials | src/Subspace.Ice/IceUtils.cs:9-46 | over it, four draws carry exactly 24 bits and twenty-two draws at least 128 |
| RtspHashUtils.Lookup32 | src/Subspace.Rtsp/HashUtils.cs:12-23 | each table entry holds the byte's first lower-case hexadecimal digit in its low 16 bits and the second in its high 16 bits |
| RtspHashUtils.Hex | src/Subspace.Rtsp/HashUtils.cs:26-37 | the reference hexadecimal form: two characters per byte |
| RtspHashUtils.HexAt | src/Subspace.Rtsp/HashUtils.cs:30-35 | characters 2i and 2i+1 are the high and low nibble of byte i as lower-case digits |
| RtspHashUtils.ToHexString | src/Subspace.Rtsp/HashUtils.cs:26-37 | the table-driven loop produces exactly the reference hexadecimal form |
| RtspHashUtils.FromHex | src/Subspace.Rtsp/HashUtils.cs:26-37 | the inverse reading: a successful read yields half as many bytes as characters |
| RtspHashUtils.FromHexOfHex | src/Subspace.Rtsp/HashUtils.cs:26-37 | round trip: reading the hexadecimal form back gives the bytes |
| RtspHashUtils.HexIsLowerCase | src/Subspace.Rtsp/HashUtils.cs:18-19 | every character of the form is a lower-case hexadecimal digit |
| RtspHashUtils.AsciiBytes | src/Subspace.Rtsp/HashUtils.cs:41 | one byte per character, below 0x80, ASCII characters kept as themselves |
| RtspHashUtils.AsciiInjective | src/Subspace.Rtsp/HashUtils.cs:41 | distinct ASCII strings encode to distinct bytes |
| RtspHashUtils.ComputeHashString | src/Subspace.Rtsp/HashUtils.cs:39-42 | the result reads back as the digest of the ASCII bytes, and is 32 characters for a 16-byte MD5 digest |
| KeyValueParser.SplitPair | src/Subspace.Rtsp/KeyValueParser.cs:8-25 | without the separator the field is returned whole; otherwise the text before the first separator and everything after it, which put back together give the field |
| KeyValueParser.ParsePairs | src/Subspace.Rtsp/KeyValueParser.cs:27-36 | one pair per separated field, empty fields included; no key holds '=' or the separator |
| KeyValueParser.ParsePairsFields | src/Subspace.Rtsp/KeyValueParser.cs:27-36 | a field without '=' gives the key with an empty value; otherwise the key is the text before the first '=' and the value the rest with surrounding quotes trimmed |
| KeyValueParser.ParseFormatField | src/Subspace.Rtsp/KeyValueParser.cs:27-36 | a `key="value"` field reads back as its key and value |
| KeyValueParser.ParseFormatPairs | src/Subspace.Rtsp/KeyValueParser.cs:27-36 | round trip: a non-empty list of printable pairs, formatted and parsed back, is the same list in the same order |
| StunRecord.Padding | src/Subspace.Stun/StunRecord.cs:235-243 | at most three padding bytes, which bring the value length to a multiple of four |
| StunRecord.PaddingIsLeast | src/Subspace.Stun/StunRecord.cs:235-243 | no shorter run of padding aligns the value: the padding is the least such count, as section 15 of RFC 5389 asks |
| StunRecord.AttributesSize | src/Subspace.Stun/StunRecord.cs:25-31 | the attributes' total wire size, type and length fields and padding included, is a multiple of four |
| StunRecord.MessageLength | src/Subspace.Stun/StunRecord.cs:25-31 | the message length, cast to 16 bits, keeps its last two bits zero as section 6 of RFC 5389 says |
| StunRecord.Tlv | src/Subspace.Stun/StunRecord.cs:84-93 | an attribute on the wire is its 4-byte type and length, the value, then the padding |
| StunRecord.Sign | src/Subspace.Stun/StunRecord.cs:98-108 | signing sets the message integrity and leaves the type, transaction id and attributes unchanged |
| StunRecord.FingerprintValue | src/Subspace.Stun/StunRecord.cs:215-219 | the fingerprint is four bytes, the CRC-32 XOR 0x5354554E in network order |
| StunRecord.XorMappedValue | src/Subspace.Stun/StunRecord.cs:360-380 | the XOR-MAPPED-ADDRESS value is eight bytes: reserved, family 1, the masked port, the masked IPv4 address |
| StunRecord.XorMappedEndpoint | src/Subspace.Stun/StunRecord.cs:354-382 | a client's decoding of an eight-byte IPv4 XOR-MAPPED-ADDRESS value |
| StunRecord.XorMaskInvolution | src/Subspace.Stun/StunRecord.cs:367-373 | masking the port with the cookie's high 16 bits and the address with the cookie is undone by masking again |
| StunRecord.XorMappedRoundTrip | src/Subspace.Stun/StunRecord.cs:354-382 | round trip: the endpoint a client decodes, as section 15.2 of RFC 5389 describes, is the one the relay encoded |
| StunUsers.AddUser | src/Subspace.Stun/IceInMemoryStunUserProvider.cs:9-12 | the name maps to the new password, replacing any old one, and every other entry is unchanged |
| StunUsers.Fragment | src/Subspace.Stun/IceInMemoryStunUserProvider.cs:35 | the username fragment is the colon-free text before the first colon, or the whole name |
| StunUsers.FragmentUnique | src/Subspace.Stun/IceInMemoryStunUserProvider.cs:35 | that fragment is the only colon-free prefix that ends the name or is followed by a colon |
| StunUsers.GetPassword | src/Subspace.Stun/IceInMemoryStunUserProvider.cs:33-41 | a password is found exactly when the fragment before the first colon is a known user |
| StunUsers.CheckFindsPassword | src/Subspace.Stun/IceInMemoryStunUserProvider.cs:9-41 | a check naming `fragment:peer` or `fragment` alone finds the password just added for the fragment, as section 7.1.2.3 of RFC 5245 forms the username |
| StunUsers.ColonNamesUnreachable | src/Subspace.Stun/IceInMemoryStunUserProvider.cs:9-41 | a user added under a name with a colon is never found: every lookup answers as before |
| StunRecordReader.ReadAttributes | src/Subspace.Stun/StunRecordReader.cs:31-81 | the attribute loop fails only by running past the end of the datagram |
| StunRecordReader.Read | src/Subspace.Stun/StunRecordReader.cs:10-84 | reading succeeds exactly when the datagram holds a 20-byte header with the magic cookie and its attributes all fit; a wrong cookie throws invalid-operation; the type and the 12-byte transaction id come from their offsets, and no integrity is kept |
| StunRecordReader.LengthFieldIgnored | src/Subspace.Stun/StunRecordReader.cs:17-18 | the header's length field has no say: datagrams that differ only there read alike |
| StunRecordReader.ReadAttributesSuffix | src/Subspace.Stun/StunRecordReader.cs:31-81 | the attribute loop from an offset depends only on the bytes from that offset on |
| StunRecordReader.HeaderOnly | src/Subspace.Stun/StunRecordReader.cs:10-31 | a bare header with the right cookie reads as a record with no attributes |
| StunRecordReader.WrongCookieThrows | src/Subspace.Stun/StunRecordReader.cs:19-25 | a header with any other cookie throws, whatever follows |
| StunRecordWriter.IntegrityImage | src/Subspace.Stun/StunRecordWriter.cs:40-49 | a signed record carries a 24-byte integrity attribute, an unsigned one none |
| StunRecordWriter.HeaderFields | src/Subspace.Stun/StunRecordWriter.cs:17-24 | the header holds the type, the attributes' length plus the trailer length (mod 2^16), the cookie and the transaction id at the offsets the reader uses |
| SpanWrites.Overrun | src/Subspace.Stun/StunRecordWriter.cs:15-56 | a cursor walking a fixed-size span fails only out of range or with an argument error |
| SpanWrites.FirstCrossing | src/Subspace.Stun/StunRecordWriter.cs:15-56 | the exception is the one of the first write that crosses the end: a copy whose slice exists is an argument error, any other write, or a copy from a cursor already past the end, is out of range |
| SpanWrites.NoCrossing | src/Subspace.Stun/StunRecordWriter.cs:15-56 | nothing is thrown exactly when no write crosses the end; skipping past the end alone throws nothing |
| SpanWrites.OverrunConcat | src/Subspace.Stun/StunRecordWriter.cs:15-56 | writes run in order: a second batch starts where the first ends and is reached only when the first fits |
| SpanWrites.FitsWithoutSkips | src/Subspace.Rtp/Rtcp/RtcpPacketSerializer.cs:45-63 | with no padding skips, the writes fit exactly when their total width fits after the start |
| SpanWrites.PutsOnly | src/Subspace.Rtp/Rtcp/RtcpPacketSerializer.cs:45-53 | indexer stores and `BinaryPrimitives` writes alone throw only out of range, and exactly when they do not all fit |
| SpanWrites.FitsEndingInWrite | src/Subspace.Stun/StunRecordWriter.cs:37-56 | when the last step writes, the steps fit exactly when their total width fits: a padding skip matters only through the write after it |
| StunRecordWriter.Layout | src/Subspace.Stun/StunRecordWriter.cs:11-57 | the array is sized 20 + message length + 8 or 32; a write past it fails either out of range (a `BinaryPrimitives` write, or a cursor already past the end) or as an argument error (a value copy whose slice is too short) |
| StunRecordWriter.Write | src/Subspace.Stun/StunRecordWriter.cs:9-59 | a written message is exactly header, attributes and trailer long; a failure is a write past the array, out of range or an argument error |
| StunRecordWriter.StepsImage | src/Subspace.Stun/StunRecordWriter.cs:15-56 | the writer's writes, in cursor order, lay down exactly the emitted message short of the fingerprint's padding |
| StunRecordWriter.LayoutSucceeds | src/Subspace.Stun/StunRecordWriter.cs:11-57 | the writer succeeds exactly when the message up to the end of the fingerprint value fits the array |
| StunRecordWriter.LongTransactionIdArgument | src/Subspace.Stun/StunRecordWriter.cs:13-56 | an unsigned record without attributes and with a 13-byte transaction id gets a 28-byte array; the fingerprint value's copy at offset 25 finds a 3-byte slice and throws an argument error |
| StunRecordWriter.LongTransactionIdOutOfRange | src/Subspace.Stun/StunRecordWriter.cs:52-54 | with a 17-byte transaction id the fingerprint's length write at offset 27 is already past the end: out of range |
| StunRecordWriter.MessageLengthExact | src/Subspace.Stun/StunRecord.cs:25-31 | for a record whose values fit, the 16-bit message length is the attributes' real size and has room for the trailer |
| StunRecordWriter.LayoutFits | src/Subspace.Stun/StunRecordWriter.cs:11-57 | a well-sized record fills its array exactly, and the header's length field counts every byte after the header |
| StunRecordWriter.ReadOne | src/Subspace.Stun/StunRecordReader.cs:31-81 | one attribute laid out by the writer is read back as its type and value, or skipped when it is an integrity or fingerprint attribute |
| StunRecordWriter.ReadImage | src/Subspace.Stun/StunRecordReader.cs:31-81 | a laid-out list of kept attributes reads back in order |
| StunRecordWriter.ReadTrailer | src/Subspace.Stun/StunRecordWriter.cs:40-57 | the integrity and fingerprint trailer is parsed and dropped |
| StunRecordWriter.ReadLayout | src/Subspace.Stun/StunRecordWriter.cs:9-59 | the emitted bytes read back as the type, transaction id and attributes written |
| StunRecordWriter.ReadWrite | src/Subspace.Stun/StunRecordWriter.cs:9-59 | round trip with the reader: whatever the fingerprint, a well-sized record is written, and reading it back gives the type, transaction id and attributes |
| StunChecks.EmittedSplit | src/Subspace.Stun/StunRecordWriter.cs:51-56 | the written message ends in the fingerprint attribute: type 0x8028, length 4, then the value |
| StunChecks.AsBytesImage | src/Subspace.Stun/StunRecord.cs:75-96 | with the trailer length the writer announces, the getter's bytes are exactly the header and attributes the writer emits |
| StunChecks.AsBytesLengthField | src/Subspace.Stun/StunRecord.cs:79-80 | the getter's length field is the message length plus the padding length it is given |
| StunChecks.CorrectedInput | src/Subspace.Stun/StunRecord.cs:197-221 | with the emitted trailer length, the fingerprint input is exactly the message before the fingerprint attribute |
| StunChecks.FingerprintChecksOn | src/Subspace.Stun/StunRecord.cs:197-221 | a receiver's fingerprint check of section 15.5 of RFC 5389 passes exactly when the last four bytes are the fingerprint of everything before the attribute |
| StunChecks.CorrectedFingerprintChecks | src/Subspace.Stun/StunRecord.cs:197-221 | with the corrected length, every well-sized written message passes the receiver's fingerprint check |
| StunChecks.SignedFingerprintAgrees | src/Subspace.Stun/StunRecord.cs:197-221 | for a signed record the relay's fingerprint input announces the 32 trailing bytes the message really has, so as written and corrected agree |
| StunChecks.AsWrittenFingerprintMismatch | src/Subspace.Stun/StunRecord.cs:197-221 | for an unsigned record the CRC input announces a length of message + 32 while the wire says message + 8, so the check passes only on a CRC collision |
| StunChecks.IndicationFingerprintLength | src/Subspace.Stun/StunHandler.cs:63-71 | the relay's unsigned Binding indication says length 8 on the wire but its fingerprint was computed over a header saying 32 |
| StunChecks.IntegrityAfter | src/Subspace.Stun/StunRecord.cs:98-108 | an integrity attribute whose value is the HMAC of the preceding bytes, with the length field pointing at its own end, passes the check of section 15.4 of RFC 5389 |
| StunChecks.EmittedVerifies | src/Subspace.Stun/StunRecordWriter.cs:40-49 | a record whose digest is the HMAC of `GetAsBytes(24)` is written so that the integrity check passes |
| StunChecks.SignedMessageVerifies | src/Subspace.Stun/StunRecord.cs:98-108 | every well-sized record signed with a password and written (either variant) passes the receiver's integrity check under that password's key |
| StunHandler.FirstUsername | src/Subspace.Stun/StunHandler.cs:87-93 | the first username attribute of the request, and none exactly when there is no username attribute |
| StunHandler.BindingResponse | src/Subspace.Stun/StunHandler.cs:73-107 | a Binding success response with the request's transaction id, carrying the client's XOR-mapped address and the echoed username; it is signed exactly when the request names a user whose password is known |
| StunHandler.BindingResponseSigned | src/Subspace.Stun/StunHandler.cs:92-104 | a known user's response is the unsigned response signed with that user's password; otherwise it goes out unsigned |
| StunHandler.Respond | src/Subspace.Stun/StunHandler.cs:34-52 | an unreadable datagram throws the reader's error; a Binding request or Binding success response is answered under the same transaction id, and any other message type is not answered |
| StunHandler.Reply | src/Subspace.Stun/StunHandler.cs:48-61 | bytes are sent exactly when a response is chosen, and an unreadable datagram throws |
| StunHandler.ResponseWellSized | src/Subspace.Stun/StunHandler.cs:73-90 | a response to a request read off the wire fits the writer's length fields and reads back attribute for attribute |
| StunHandler.ClientLearnsItsAddress | src/Subspace.Stun/StunHandler.cs:34-107 | a client that sends a Binding request gets an answer that reads back as a success response with its transaction id, an XOR-mapped address that decodes to the client's own endpoint, and the username attribute |
| StunHandler.KnownUserVerifies | src/Subspace.Stun/StunHandler.cs:92-99 | when the user is known, the answer passes the integrity check under that user's password |
| StunHandler.CorrectedRepliesFingerprinted | src/Subspace.Stun/StunHandler.cs:54-61 | with the corrected fingerprint length, every answer passes the receiver's fingerprint check |
| StunHandler.IndicationFingerprintMismatch | src/Subspace.Stun/StunHandler.cs:43-46 | the indication sent in answer to a Binding success response says length 8, and its fingerprint passes only on a CRC collision between the two inputs |
| WebRtcConnectionManager.Fresh | src/Subspace.WebRtc/WebRtcConnectionManager.cs:58-62 | a new connection is filed under its endpoint, with a fresh DTLS context holding no key material and no SRTP policy |
| WebRtcConnectionManager.GetOrAdd | src/Subspace.WebRtc/WebRtcConnectionManager.cs:53-64 | an endpoint already known returns its connection and changes nothing; an unknown one gets a fresh connection, which is stored and returned; no other entry changes |
| WebRtcConnectionManager.Get | src/Subspace.WebRtc/WebRtcConnectionManager.cs:66-71 | the stored connection, or null exactly when the endpoint is unknown; nothing is stored |
| WebRtcConnectionManager.RemoveClient | src/Subspace.WebRtc/WebRtcConnectionManager.cs:48-51 | the endpoint's entry goes and every other entry stays as it was |
| WebRtcConnectionManager.GetAll | src/Subspace.WebRtc/WebRtcConnectionManager.cs:73-76 | exactly the stored connections |
| WebRtcConnectionManager.RemoveStaleClients | src/Subspace.WebRtc/WebRtcConnectionManager.cs:32-46 | the sweep over a snapshot removes exactly the connections silent for strictly more than ten seconds and keeps the rest unchanged |
| WebRtcConnectionManager.TimeoutBoundary | src/Subspace.WebRtc/WebRtcConnectionManager.cs:23-40 | a connection last heard exactly ten seconds ago survives; one tick later it is removed |
| WebRtcConnectionManager.SweepIdempotent | src/Subspace.WebRtc/WebRtcConnectionManager.cs:32-46 | a second sweep at the same time removes nothing more |
| WebRtcConnectionManager.LaterSweepKeepsFewer | src/Subspace.WebRtc/WebRtcConnectionManager.cs:32-46 | a later sweep never keeps a connection an earlier one removed |
| WebRtcConnectionManager.OperationsKeepWellFormed | src/Subspace.WebRtc/WebRtcConnectionManager.cs:32-64 | adding, removing and sweeping keep every connection filed under its own endpoint |
| WebRtcConnectionManager.OneConnectionPerEndpoint | src/Subspace.WebRtc/WebRtcConnectionManager.cs:73-76 | in a well-formed registry a connection is listed exactly when it is the one stored under its endpoint |
| WebRtcConnectionManager.GetOrAddIdempotent | src/Subspace.WebRtc/WebRtcConnectionManager.cs:48-71 | a second `GetOrAdd` returns the same connection and changes nothing; after `RemoveClient` the endpoint is unknown and the next `GetOrAdd` starts fresh |
| WebRtcServer.Receive | src/Subspace.WebRtc/WebRtcServer.cs:78-93 | the sender's connection is found or created and stamped with the receive time, every other connection and the encryptor are untouched, and the datagram goes to the handler the multiplexer picks |
| WebRtcServer.Policy | src/Subspace.WebRtc/WebRtcServer.cs:116 | the cached SRTP policy when there is one, else one derived from the exported key material |
| WebRtcServer.SendRtp | src/Subspace.WebRtc/WebRtcServer.cs:102-129 | nothing happens for an unknown client or one without key material; otherwise the policy is cached, the packet is protected by the encryptor, and the protected bytes go to the connection's endpoint, or the encryptor's exception escapes |
| WebRtcServer.PolicyDerivedOnce | src/Subspace.WebRtc/WebRtcServer.cs:116 | the policy is derived at most once per connection: later sends keep it even if the key material changes |
| WebRtcServer.SentToClient | src/Subspace.WebRtc/WebRtcServer.cs:102-123 | in a well-formed registry the protected packet is addressed to the client asked for, and the encryptor then holds a context for the packet's SSRC and that client |
| WebRtcServer.ReceiveKeepsAlive | src/Subspace.WebRtc/WebRtcServer.cs:78-81 | receiving keeps the registry well formed, and the sender survives every sweep within the next ten seconds |
| Rtcp.ReasonFieldLength | src/Subspace.Rtp/Rtcp/RtcpGoodbyePacket.cs:12-19 | a reason field of n octets under section 6.6 of RFC 3550 is a whole number of words, with room for the count octet and the text and fewer than four octets of null padding |
| Rtcp.GoodbyeLengthIsRfc | src/Subspace.Rtp/Rtcp/RtcpGoodbyePacket.cs:25-30 | the goodbye getter's 8-byte constant is the common header plus the count octet and the round-up to a word: a goodbye whose reason holds the text announces exactly the RFC 3550 size, header, source words and reason field |
| Rtcp.LengthWords | src/Subspace.Rtp/Rtcp/RtcpGoodbyePacket.cs:30 | every packet class announces its length in words minus one; only a goodbye packet without a reason fails, with a null reference |
| Rtcp.ReportSizeExact | src/Subspace.Rtp/Rtcp/RtcpSenderReportPacket.cs:23 | a sender report announces exactly its 8-byte header, 20 bytes of sender information and 24 bytes per report block |
| Rtcp.SdesSizeRoundsUp | src/Subspace.Rtp/Rtcp/RtcpSourceDescriptionPacket.cs:25-41 | a source description announces its summed size rounded up to a whole number of words |
| Rtcp.ReportLengthWraps | src/Subspace.Rtp/Rtcp/RtcpReceiverReportPacket.cs:28 | the 16-bit length wraps: a receiver report with 10923 blocks announces only 16 bytes |
| RtcpParser.AsciiDecode | src/Subspace.Rtp/Rtcp/RtcpPacketParser.cs:72 | the application name keeps its ASCII bytes and turns every other byte into '?' |
| RtcpParser.ParseReports | src/Subspace.Rtp/Rtcp/RtcpPacketParser.cs:135-155 | n report blocks parse exactly when 24·n bytes remain at the cursor, and the cursor ends 24·n bytes on; a short buffer is out of range |
| RtcpParser.ParseItems | src/Subspace.Rtp/Rtcp/RtcpPacketParser.cs:170-186 | the item loop of a chunk consumes at least its end byte and stays inside the buffer; the only failure is running out of bytes |
| RtcpParser.ParseChunks | src/Subspace.Rtp/Rtcp/RtcpPacketParser.cs:157-192 | one chunk per announced source; the only failure is running out of bytes |
| RtcpParser.ParseSources | src/Subspace.Rtp/Rtcp/RtcpPacketParser.cs:198-204 | one source per announced count, the cursor 4 bytes on per source; read at the cursor, it succeeds exactly when the words fit and the i-th source is the word 4i bytes on; as written every source is the first word of the buffer |
| RtcpParser.GoodbyeReason | src/Subspace.Rtp/Rtcp/RtcpPacketParser.cs:206-213 | a reason exists exactly when bytes remain before the announced end, and the cursor then moves to that end; as written the reason is every remaining byte, taken from the buffer's start; at the cursor it is the count octet's worth of text after the count octet, which must fall short of the remaining bytes; a short buffer is out of range |
| RtcpParser.ParseBody | src/Subspace.Rtp/Rtcp/RtcpPacketParser.cs:37-60 | the body is decoded by packet type and carries that type and the header's padding bit; an unknown type is not supported and a known one fails only out of range |
| RtcpParser.ParseWith | src/Subspace.Rtp/Rtcp/RtcpPacketParser.cs:10-63 | a packet is decoded only from version 2 with a known type, and carries the type and padding bit of its header; another version or type is not supported; a buffer shorter than the header is out of range |
| RtcpParser.ParseRtcpPacket | src/Subspace.Rtp/Rtcp/RtcpPacketParser.cs:80-97 | as written, a receiver report's own SSRC is read from the first word of the buffer, its header |
| RtcpParser.ParseRtcpPacketAtCursor | src/Subspace.Rtp/Rtcp/RtcpPacketParser.cs:80-97 | read at the cursor, a receiver report's SSRC is the word after the header, as section 6.4.2 of RFC 3550 lays it out |
| RtcpParser.ReportBodyConsumesAnnouncedSize | src/Subspace.Rtp/Rtcp/RtcpPacketParser.cs:80-133 | for report packets the body parser's cursor stops exactly at the size the decoded packet announces |
| RtcpParser.ReportConsumesAnnouncedSize | src/Subspace.Rtp/Rtcp/RtcpPacketParser.cs:10-63 | so the receive loop, which advances by the announced size, lands on the next packet after a report |
| RtcpSerializer.FirstByte | src/Subspace.Rtp/Rtcp/RtcpPacketSerializer.cs:16 | for fewer than 32 entries the first byte holds version 2, the padding bit and the count in its low five bits; a larger count spills into the version and padding bits |
| RtcpSerializer.WriteAt | src/Subspace.Rtp/Rtcp/RtcpPacketSerializer.cs:20-38 | a write succeeds exactly when it fits the buffer, keeps the buffer's length, and otherwise throws out of range |
| RtcpSerializer.WriteAtElems | src/Subspace.Rtp/Rtcp/RtcpPacketSerializer.cs:20-38 | a write changes exactly the bytes it covers |
| RtcpSerializer.CumulativeLostBytes | src/Subspace.Rtp/Rtcp/RtcpPacketSerializer.cs:30-31 | as written the cumulative loss is written as four bytes although the cursor moves only three; corrected, three bytes |
| RtcpSerializer.WriteReportLength | src/Subspace.Rtp/Rtcp/RtcpPacketSerializer.cs:26-39 | one report block is written exactly when 24 bytes remain at the cursor, and otherwise throws out of range |
| RtcpSerializer.ReportImage | src/Subspace.Rtp/Rtcp/RtcpPacketSerializer.cs:26-39 | a report block leaves 24 bytes in the buffer |
| RtcpSerializer.WriteReportImage | src/Subspace.Rtp/Rtcp/RtcpPacketSerializer.cs:26-39 | the field-by-field writes leave exactly the block's image at the cursor and nothing else changed; as written the fourth loss byte is overwritten by the next field |
| RtcpSerializer.ReportsImage | src/Subspace.Rtp/Rtcp/RtcpPacketSerializer.cs:24-40 | the blocks' images, 24 bytes each |
| RtcpSerializer.WriteReportsLength | src/Subspace.Rtp/Rtcp/RtcpPacketSerializer.cs:24-40 | the report loop succeeds exactly when all blocks fit after the cursor, and otherwise throws out of range |
| RtcpSerializer.WriteReportsIn | src/Subspace.Rtp/Rtcp/RtcpPacketSerializer.cs:24-40 | writing a list over its region leaves exactly the list's image there and keeps the bytes around it |
| RtcpSerializer.WriteReportsImage | src/Subspace.Rtp/Rtcp/RtcpPacketSerializer.cs:24-40 | the same for any buffer with room: the prefix, the image, the rest unchanged |
| RtcpSerializer.ItemsImage | src/Subspace.Rtp/Rtcp/RtcpPacketSerializer.cs:55-64 | a chunk's items occupy exactly the bytes the length getter counts for them |
| RtcpSerializer.ChunksImage | src/Subspace.Rtp/Rtcp/RtcpPacketSerializer.cs:51-65 | as written a chunk occupies one byte less than the getter counts (no end byte); corrected, exactly what it counts |
| RtcpSerializer.Header | src/Subspace.Rtp/Rtcp/RtcpPacketSerializer.cs:16-21 | the common header is four bytes |
| RtcpSerializer.Serialize | src/Subspace.Rtp/Rtcp/RtcpPacketSerializer.cs:10-67 | only receiver reports and source descriptions are written, other packets leave the buffer as it was; the buffer keeps its length; a failure is a write past its end, always out of range for a receiver report, out of range or an argument error (a text copy) for a source description |
| RtcpSerializer.SourceDescriptionWrites | src/Subspace.Rtp/Rtcp/RtcpPacketSerializer.cs:43-66 | a source description is written exactly when its header and chunks fit the buffer, and then lands at the buffer's start |
| RtcpSerializer.OneItemOverrun | src/Subspace.Rtp/Rtcp/RtcpPacketSerializer.cs:45-62 | for one chunk with one item: a buffer shorter than the ten fixed bytes is out of range; one that ends inside the text makes the text copy an argument error; the corrected end byte with no room left is out of range; a buffer with room succeeds |
| RtcpCodec.ReportsAsRead | src/Subspace.Rtp/Rtcp/RtcpPacketParser.cs:135-155 | one report read back per block written |
| RtcpCodec.CumulativeLostRead | src/Subspace.Rtp/Rtcp/RtcpPacketParser.cs:143 | the parser's 24-bit loss field holds the loss shifted right by 8 bits as written, and the loss mod 2^24 corrected |
| RtcpCodec.ReportAtImage | src/Subspace.Rtp/Rtcp/RtcpPacketParser.cs:135-155 | a block the serializer wrote anywhere in a buffer is read back as the report as read |
| RtcpCodec.ParseReportsImage | src/Subspace.Rtp/Rtcp/RtcpPacketParser.cs:125-130 | report blocks laid out by the serializer parse back block by block, the cursor ending right after them |
| RtcpCodec.EncodeReceiverReport | src/Subspace.Rtp/Rtcp/RtcpPacketSerializer.cs:13-41 | an encoded receiver report is the common header announcing 1 + 6·n words, the SSRC, then the blocks |
| RtcpCodec.ParseReceiverReportAt | src/Subspace.Rtp/Rtcp/RtcpPacketParser.cs:80-97 | a receiver-report header followed by parseable blocks gives a receiver report whose SSRC is read at the buffer start as written, or after the header at the cursor |
| RtcpCodec.ParseEncodedReceiverReport | src/Subspace.Rtp/Rtcp/RtcpPacketParser.cs:80-97 | parsing any encoded receiver report followed by any bytes gives the blocks as read, and the header word instead of the SSRC as written |
| RtcpCodec.ReportsAsReadCorrected | src/Subspace.Rtp/Rtcp/RtcpPacketSerializer.cs:30-31 | with three loss bytes written, every report whose loss fits 24 bits reads back unchanged |
| RtcpCodec.ParseSourcesImage | src/Subspace.Rtp/Rtcp/RtcpPacketParser.cs:198-204 | corrected: source words written one after another after any prefix are read back at the cursor in order, the cursor ending right after them |
| RtcpCodec.ReasonField | src/Subspace.Rtp/Rtcp/RtcpGoodbyePacket.cs:12-19 | the reason field of section 6.6 of RFC 3550: the count octet, then the text, padded with nulls to a whole number of words |
| RtcpCodec.GoodbyeImageHeader | src/Subspace.Rtp/Rtcp/RtcpPacketParser.cs:194-206 | a goodbye image begins with the first byte holding the source count, the goodbye type, and a length field covering exactly the image |
| RtcpCodec.RoundTripGoodbye | src/Subspace.Rtp/Rtcp/RtcpPacketParser.cs:194-216 | round trip: corrected, a goodbye with fewer than 32 sources and a reason under 256 octets, laid out as RFC 3550 lays it out, parses back at the cursor with its sources in order and its reason text, whatever follows; the cursor stops at the image's end, and a packet with a reason announces exactly the image's size |
| RtcpCodec.GoodbyeAnnouncesImage | src/Subspace.Rtp/Rtcp/RtcpGoodbyePacket.cs:25-30 | a goodbye with a reason announces exactly the size of its RFC 3550 image |
| RtcpCodec.AsWrittenGoodbyeOvercounts | src/Subspace.Rtp/Rtcp/RtcpPacketParser.cs:205-212 | as written, the parsed reason of a goodbye image is the whole reason field, count octet and padding included, so the getter adds its count octet and padding again and the packet announces 4 bytes more than its image |
| RtcpCodec.AsWrittenGoodbye | src/Subspace.Rtp/Rtcp/RtcpPacketParser.cs:198-213 | as written, every source of a goodbye reads as the packet's first word, and the reason as the packet's first bytes, as many as the whole reason field |
| RtcpCodec.ByeReasonExample | src/Subspace.Rtp/Rtcp/RtcpPacketParser.cs:198-213 | the goodbye from source 0x11223344 leaving with "bye" is 12 bytes; as written it reads back with source 0x81CB0002 and its header as the reason and announces 16 bytes; read at the cursor it comes back unchanged and announces 12 |
| RtcpCodec.AsWrittenGoodbyeExample | src/Subspace.Rtp/Rtcp/RtcpPacketParser.cs:198-204 | as written, a goodbye from sources 0x11223344 and 0x55667788 reads back as two copies of its header word 0x82CB0002 |
| RtcpCodec.RoundTripReceiverReport | src/Subspace.Rtp/Rtcp/RtcpPacketSerializer.cs:13-41 | round trip: corrected, a receiver report with fewer than 32 blocks whose losses fit 24 bits is serialized and parsed back unchanged, whatever follows it |
| RtcpCodec.AsWrittenReceiverReport | src/Subspace.Rtp/Rtcp/RtcpPacketParser.cs:84 | as written, a report comes back with the header word as its SSRC and every loss shifted right by 8 bits |
| RtcpCodec.AsWrittenReceiverReportExample | src/Subspace.Rtp/Rtcp/RtcpPacketParser.cs:84 | a receiver report with SSRC 0x11223344 and one block losing 5 packets reads back with SSRC 0x81C90007 and a loss of 0 |
| SdesCodec.ItemList | src/Subspace.Rtp/Rtcp/RtcpSourceDescriptionPacket.cs:29-32 | a chunk's items followed by its end byte occupy the bytes the length getter counts for them |
| SdesCodec.ParseItemsEnd | src/Subspace.Rtp/Rtcp/RtcpPacketParser.cs:170-173 | at an end byte a chunk's item list is empty and the cursor moves past it |
| SdesCodec.ParseItemList | src/Subspace.Rtp/Rtcp/RtcpPacketParser.cs:170-186 | an item list laid out at the cursor, read at the cursor, parses back item by item, stopping after the end byte |
| SdesCodec.ParseItemsImage | src/Subspace.Rtp/Rtcp/RtcpPacketParser.cs:170-186 | the same between any surrounding bytes |
| SdesCodec.ParseChunkList | src/Subspace.Rtp/Rtcp/RtcpPacketParser.cs:157-192 | chunks written with their end bytes parse back chunk by chunk, the cursor ending right after them |
| SdesCodec.ParseChunksImage | src/Subspace.Rtp/Rtcp/RtcpPacketParser.cs:157-192 | the same between any surrounding bytes |
| SdesCodec.EncodeSourceDescription | src/Subspace.Rtp/Rtcp/RtcpPacketSerializer.cs:43-66 | an encoded source description is the common header, the chunks' bytes, then zero fill up to the announced size |
| SdesCodec.ParseSourceDescriptionAt | src/Subspace.Rtp/Rtcp/RtcpPacketParser.cs:157-192 | a source-description header followed by parseable chunks gives a source description of those chunks |
| SdesCodec.ParseSourceDescriptionImage | src/Subspace.Rtp/Rtcp/RtcpPacketParser.cs:157-192 | a header followed by chunks written with end bytes parses back as those chunks, whatever follows |
| SdesCodec.RoundTripSourceDescription | src/Subspace.Rtp/Rtcp/RtcpPacketSerializer.cs:43-66 | round trip: corrected (end bytes written, fields read at the cursor), every source description of carriable items is serialized and parsed back unchanged |
| SdesCodec.TwoChunksSizes | src/Subspace.Rtp/Rtcp/RtcpSourceDescriptionPacket.cs:25-41 | a two-chunk example sums to 17 bytes and announces 20 |
| SdesCodec.TwoChunksAsWrittenImage | src/Subspace.Rtp/Rtcp/RtcpPacketSerializer.cs:51-65 | as written the two chunks are laid out with no end byte between them |
| SdesCodec.AsWrittenTwoChunksBytes | src/Subspace.Rtp/Rtcp/RtcpPacketSerializer.cs:43-66 | the whole as-written packet: header, the eleven chunk bytes, five zero bytes of fill |
| SdesCodec.TwoChunksMisread | src/Subspace.Rtp/Rtcp/RtcpPacketParser.cs:157-192 | those bytes are exactly the corrected image of a different chunk list, whose second SSRC is 512 |
| SdesCodec.AsWrittenSourceDescriptionExample | src/Subspace.Rtp/Rtcp/RtcpPacketSerializer.cs:51-65 | so the relay's two-chunk packet reads back with the second chunk's SSRC as 512 instead of 2 |
| RtcpClient.TaggedAt | src/Subspace.Rtp/Rtcp/RtcpClient.cs:46-48 | every packet of a datagram is kept in order and stamped with the datagram's sender |
| RtcpClient.Split | src/Subspace.Rtp/Rtcp/RtcpClient.cs:40-51 | every packet the receive loop returns carries the datagram's sender |
| RtcpClient.TotalSize | src/Subspace.Rtp/Rtcp/RtcpClient.cs:62 | the send buffer's size exists exactly when every packet's announced length does; otherwise the null reason of a goodbye throws |
| RtcpClient.Send | src/Subspace.Rtp/Rtcp/RtcpClient.cs:60-74 | a datagram is sent only when the buffer size could be computed |
| RtcpClient.EncodeLength | src/Subspace.Rtp/Rtcp/RtcpClient.cs:68-70 | a packet's encoding fills exactly the four bytes per announced word plus four by which the send loop advances |
| RtcpClient.SerializeExtends | src/Subspace.Rtp/Rtcp/RtcpPacketSerializer.cs:13-66 | serializing into the front of a longer span leaves the bytes after the packet untouched |
| RtcpClient.ImagesLength | src/Subspace.Rtp/Rtcp/RtcpClient.cs:62-63 | the packets' encodings together fill exactly the buffer the send path allocates |
| RtcpClient.WriteAllImages | src/Subspace.Rtp/Rtcp/RtcpClient.cs:65-71 | the send loop over a zero-filled buffer writes each packet's own encoding right after the previous one |
| RtcpClient.SendLayout | src/Subspace.Rtp/Rtcp/RtcpClient.cs:60-74 | the sent datagram is the packets' encodings back to back; a packet without an announced length makes the send throw |
| RtcpClient.ReadBackOne | src/Subspace.Rtp/Rtcp/RtcpPacketParser.cs:12-63 | a carried packet's encoding, whatever follows it, parses back to the packet up to the known defects, announcing the length it occupies |
| RtcpClient.SplitUnfold | src/Subspace.Rtp/Rtcp/RtcpClient.cs:42-49 | one turn of the receive loop: the packet at the cursor, then the packets after its announced length |
| RtcpClient.SplitFramed | src/Subspace.Rtp/Rtcp/RtcpClient.cs:40-51 | a datagram cut into segments each of which parses to a packet of that segment's length yields exactly those packets, in order |
| RtcpClient.SplitImages | src/Subspace.Rtp/Rtcp/RtcpClient.cs:32-58 | the receive loop over back-to-back encodings of carried packets returns their read-back forms in order |
| RtcpClient.CompoundRoundTrip | src/Subspace.Rtp/Rtcp/RtcpClient.cs:32-74 | round trip: corrected, a compound datagram of carried packets is sent and split back into exactly those packets, tagged with the sender |
| RtcpClient.AsWrittenCompound | src/Subspace.Rtp/Rtcp/RtcpClient.cs:32-74 | as written on both ends, a compound of receiver reports comes back in order but with each packet's defects applied |
| RtcpClient.GoodbyeWithoutReasonDropsDatagram | src/Subspace.Rtp/Rtcp/RtcpGoodbyePacket.cs:30 | a goodbye with one source and no reason leaves the reason null, so the length read in the receive loop throws and the whole datagram is lost |
| RtcpClient.GoodbyeSkipsWord | src/Subspace.Rtp/Rtcp/RtcpClient.cs:42-49 | as written, after a goodbye image with a reason the receive loop resumes 4 bytes past the packet, inside whatever follows: the datagram splits into that goodbye followed by whatever splits from there, and fails exactly when that rest fails |
| RtcpClient.GoodbyeResumesAtEnd | src/Subspace.Rtp/Rtcp/RtcpClient.cs:42-49 | corrected, the goodbye comes back unchanged and the receive loop resumes exactly at the end of its image |
| Text.SplitJoin | src/Subspace.Sdp/SdpParser.cs:89 | splitting a text at a separator loses nothing: the parts joined with that separator give the text back |
| Text.SplitCount | src/Subspace.Sdp/SdpParser.cs:89 | a split yields one part more than there are separators |
| Text.JoinSplit | src/Subspace.Sdp/SdpMediaDescriptionBuilder.cs:331 | a non-empty list of separator-free parts, joined, splits back into exactly those parts |
| Text.DecimalRoundTrip | src/Subspace.Sdp/SdpParser.cs:92 | the decimal text of an integer in range parses back to that integer |
| Text.DecimalNumberText | src/Subspace.Sdp/SdpParser.cs:92 | the decimal text of an integer has no white space or trailing NUL for the integer parser to trim |
| Text.NumberTextPadded | src/Subspace.Sdp/SdpParser.cs:92 | integer parsing ignores leading and trailing .NET white space (tab to carriage return, space): a token so padded parses as the bare token |
| Text.ReadTerminated | src/Subspace.Sdp/SdpBuilder.cs:199-202 | lines free of line breaks, each followed by "\r\n", are read back by the line reader as exactly those lines |
| SendReceiveMode.ToSdpValue | src/Subspace.Sdp/SendReceiveMode.cs:57-67 | a mode has an attribute name exactly when it is one of the four named members; any other enum value gives null |
| SendReceiveMode.DefaultIsSendRecv | src/Subspace.Sdp/SendReceiveMode.cs:20 | the enum's zero value, which a fresh media section holds, is send-and-receive, written "sendrecv" |
| SendReceiveMode.ToSdpValueInjective | src/Subspace.Sdp/SendReceiveMode.cs:61-64 | distinct named modes are written as distinct attribute names |
| SdpModel.FormatIndex | src/Subspace.Sdp/SdpParser.cs:244 | the dictionary lookup by payload type: a found position holds that payload type, and -1 means no entry has it |
| SdpParser.TryGet | src/Subspace.Sdp/SdpParser.cs:292-295 | the part at an index, or null exactly when the index is past the end |
| SdpParser.ParseSdpLine | src/Subspace.Sdp/SdpParser.cs:55-60 | a line without '=' throws; otherwise the key is free of '=' and key, '=' and value rebuild the line |
| SdpParser.ParseAttributeKeyValue | src/Subspace.Sdp/SdpParser.cs:77-83 | the value is null exactly when there is no ':' and the name is then the whole text; otherwise the name is free of ':' and name, ':' and value rebuild the text |
| SdpParser.ParseAttributeText | src/Subspace.Sdp/SdpParser.cs:77-83 | an attribute written as name ':' value, with a name free of ':', reads back as that name and value |
| SdpParser.ParseLineText | src/Subspace.Sdp/SdpParser.cs:55-60 | a line written as key '=' value, with a key free of '=', reads back as that key and value |
| SdpParser.ParseSessionAttribute | src/Subspace.Sdp/SdpParser.cs:62-75 | a session attribute never touches the origin, the version or the media sections |
| SdpParser.ParseOriginLine | src/Subspace.Sdp/SdpParser.cs:277-290 | the origin's text fields are the space-separated parts 0, 3, 4 and 5, null when missing |
| SdpParser.ParseConnectionLine | src/Subspace.Sdp/SdpParser.cs:264-275 | the connection is the first three space-separated parts, null when missing |
| SdpParser.ParseFormats | src/Subspace.Sdp/SdpParser.cs:94-99 | every payload-type token after the protocol adds one fresh entry, in order, keyed by its parsed value, and the keys stay distinct |
| SdpParser.ParseMediaLine | src/Subspace.Sdp/SdpParser.cs:89-99 | the m= line gives media from part 0, the port parsed from part 1, protocol from part 2 and one distinct entry per further part |
| SdpParser.SplitPayloadType | src/Subspace.Sdp/SdpParser.cs:241-243 | a payload-specific value without a space throws; otherwise it splits at its first space |
| SdpParser.ParseRtpMapAttribute | src/Subspace.Sdp/SdpParser.cs:249-262 | an rtpmap changes only the formats and keeps their payload types |
| SdpParser.ParseFormatParametersAttribute | src/Subspace.Sdp/SdpParser.cs:239-247 | an fmtp changes only the formats and keeps their payload types |
| SdpParser.AddFeedbackToAll | src/Subspace.Sdp/SdpParser.cs:223-229 | the wildcard adds the capability to every format, keeping their payload types |
| SdpParser.ParseRtcpFeedbackCapabilityAttribute | src/Subspace.Sdp/SdpParser.cs:218-237 | an rtcp-fb changes only the formats and keeps their payload types |
| SdpParser.ParseSsrcAttribute | src/Subspace.Sdp/SdpParser.cs:199-216 | an ssrc attribute changes only the source attributes, and the SSRC is the first field parsed as a 32-bit unsigned number |
| SdpParser.ParseCandidate | src/Subspace.Sdp/SdpParser.cs:180-193 | transport, address and type come from fields 2, 4 and 7, field 6 being skipped |
| SdpParser.ModeOf | src/Subspace.Sdp/SdpParser.cs:136-147 | a direction attribute always names one of the four named modes |
| SdpParser.ParseMediaDescriptionAttribute | src/Subspace.Sdp/SdpParser.cs:124-197 | no media attribute changes the media, the port, the protocol or the payload types of the section |
| SdpParser.SessionLine | src/Subspace.Sdp/SdpParser.cs:26-50 | a session line needs an '='; only an m= line opens a section, carrying that line's value, and no other line touches the sections |
| SdpParser.MediaLine | src/Subspace.Sdp/SdpParser.cs:104-116 | inside a section only an m= line nests a new section; other lines never change the section's media |
| SdpParser.ModeOfToSdpValue | src/Subspace.Sdp/SdpParser.cs:136-147 | the parser maps each named mode's attribute name back to that mode |
| SdpParser.ToSdpValueOfModeOf | src/Subspace.Sdp/SendReceiveMode.cs:57-67 | and every name the parser accepts as a direction is the attribute name of the mode it yields |
| SdpParser.DirectionAttribute | src/Subspace.Sdp/SdpParser.cs:136-147 | a direction attribute sets the mode and nothing else |
| SdpParser.MediaSectionOrder | src/Subspace.Sdp/SdpParser.cs:85-122 | a media section only appends sections after the existing ones, their media names being those of its m= lines in reverse order |
| SdpParser.MediaLinesOrder | src/Subspace.Sdp/SdpParser.cs:101-121 | the section loop appends the nested sections in reverse order and the enclosing section last |
| SdpParser.SessionMediaOrder | src/Subspace.Sdp/SdpParser.cs:20-53 | session lines leave existing sections alone and the sections appended are the text's m= lines, reversed |
| SdpParser.ParseMediaOrder | src/Subspace.Sdp/SdpParser.cs:9-18 | the sections of a parsed description are the m= lines of the text in reverse order of appearance |
| SdpParser.UnknownSessionLine | src/Subspace.Sdp/SdpParser.cs:28-50 | a session line with a key the switch has no case for changes nothing |
| SdpParser.UnknownMediaLine | src/Subspace.Sdp/SdpParser.cs:105-116 | likewise inside a section |
| SdpParser.SessionSkipsUnknown | src/Subspace.Sdp/SdpParser.cs:20-53 | removing a line with an unknown key anywhere in a description leaves the parse result unchanged |
| SdpParser.SectionSkipsUnknown | src/Subspace.Sdp/SdpParser.cs:85-122 | the same for the lines of a media section |
| SdpParser.LinesSkipUnknown | src/Subspace.Sdp/SdpParser.cs:101-119 | the same for the section loop |
| SdpParser.MsidSemanticAsWritten | src/Subspace.Sdp/SdpParser.cs:71-73 | the builder's msid-semantic attribute reads back as written with the stream id prefixed by "WMS " |
| SdpParser.MsidStreamId | src/Subspace.Sdp/SdpParser.cs:72 | the stream id is what follows the first " WMS ", or the whole value when there is none |
| SdpParser.MsidStreamIdRoundTrip | src/Subspace.Sdp/SdpBuilder.cs:186 | reading the builder's " WMS " plus id the corrected way gives the id back |
| SdpParser.ParseSessionAttributeCorrected | src/Subspace.Sdp/SdpParser.cs:62-75 | the corrected session attribute reading also never touches origin, version or sections |
| SdpParser.GroupBundleIgnored | src/Subspace.Sdp/SdpParser.cs:66-70 | as written, the builder's group:BUNDLE attribute changes nothing, so the bundle list is lost |
| SdpParser.GroupBundleCorrected | src/Subspace.Sdp/SdpBuilder.cs:185 | corrected, the group:BUNDLE attribute of a non-empty list of space-free ids gives back exactly that list |
| SdpParser.MsidSemanticCorrected | src/Subspace.Sdp/SdpBuilder.cs:186 | corrected, the msid-semantic attribute gives back exactly the stream id |
| SdpParser.TwoFields | src/Subspace.Sdp/SdpParser.cs:161 | two space-free fields joined by a space split back into those two fields |
| SdpParser.SsrcCNameLost | src/Subspace.Sdp/SdpParser.cs:199-216 | as written, the builder's ssrc cname line keeps only the SSRC; the name is lost |
| SdpParser.SsrcMsIdLost | src/Subspace.Sdp/SdpParser.cs:199-216 | as written, the builder's ssrc msid line keeps only the SSRC; the stream id and application data are lost |
| SdpParser.ParseSsrcAttributeCorrected | src/Subspace.Sdp/SdpParser.cs:199-216 | the corrected reading still changes only the source attributes and reads the SSRC from the first field |
| SdpParser.SsrcCNameCorrected | src/Subspace.Sdp/SdpMediaDescriptionBuilder.cs:357 | corrected, the cname line gives back the SSRC and the name |
| SdpParser.SsrcMsIdCorrected | src/Subspace.Sdp/SdpMediaDescriptionBuilder.cs:358 | corrected, the msid line gives back the SSRC, the stream id and its application data |
| SdpMediaBuilder.SetConnection | src/Subspace.Sdp/SdpMediaDescriptionBuilder.cs:43-52 | the connection always has network type IN and address type IP4; nothing else changes |
| SdpMediaBuilder.SetSendReceiveMode | src/Subspace.Sdp/SdpMediaDescriptionBuilder.cs:54-58 | a named mode is written as an attribute the parser maps back to it; an unnamed one is written as an empty attribute |
| SdpMediaBuilder.SetSupportsRtcpMultiplexing | src/Subspace.Sdp/SdpMediaDescriptionBuilder.cs:77-81 | the section then writes one rtcp-mux line exactly when multiplexing is on |
| SdpMediaBuilder.SetMediaStream | src/Subspace.Sdp/SdpMediaDescriptionBuilder.cs:122-132 | the SSRC is set, and each of name, stream id and application data is the one given or, when none is given, a generated one, never null |
| SdpMediaBuilder.AddIceCandidate | src/Subspace.Sdp/SdpMediaDescriptionBuilder.cs:162-174 | one host candidate is appended, with foundation 1, component 1, the SSRC as priority and the port truncated to 16 bits |
| SdpMediaBuilder.SetFormat | src/Subspace.Sdp/SdpMediaDescriptionBuilder.cs:195 | the dictionary assignment: an existing payload type is replaced in place, a new one is appended, other entries stay, keys stay distinct |
| SdpMediaBuilder.AddMediaFormat | src/Subspace.Sdp/SdpMediaDescriptionBuilder.cs:193-206 | afterwards the format's payload type maps to exactly the format given, keys stay distinct and only the formats change |
| SdpMediaBuilder.AddVideoMediaFormat | src/Subspace.Sdp/SdpMediaDescriptionBuilder.cs:220-232 | a video format is an ordinary format without encoding parameters |
| SdpMediaBuilder.SetIceParameters | src/Subspace.Sdp/SdpMediaDescriptionBuilder.cs:269-278 | the section holds exactly the given username fragment, password and options, and is otherwise the section it was |
| SdpMediaBuilder.SetDtlsParameters | src/Subspace.Sdp/SdpMediaDescriptionBuilder.cs:315-325 | the section holds exactly the given role, hash function and fingerprint, and is otherwise the section it was |
| SdpMediaBuilder.PayloadTypeTexts | src/Subspace.Sdp/SdpMediaDescriptionBuilder.cs:331 | the m= line lists every payload type, in decimal, in dictionary order |
| SdpMediaBuilder.FormatLines | src/Subspace.Sdp/SdpMediaDescriptionBuilder.cs:341-356 | a format's block is its rtpmap line, an fmtp line when it has parameters, and one rtcp-fb line per capability |
| SdpMediaBuilder.CandidateLines | src/Subspace.Sdp/SdpMediaDescriptionBuilder.cs:359-362 | one candidate line per candidate |
| SdpMediaBuilder.BuildLines | src/Subspace.Sdp/SdpMediaDescriptionBuilder.cs:327-366 | a section without a connection throws |
| SdpMediaBuilder.Build | src/Subspace.Sdp/SdpMediaDescriptionBuilder.cs:327-366 | a section without a connection throws; otherwise its text is its lines, each terminated by "\r\n" |
| SdpBuilder.SetOrigin | src/Subspace.Sdp/SdpBuilder.cs:45-58 | the session id is the first seven random bytes read little-endian, so it is below 2^56; the origin is user "-", IN, IP4 with the given version and address |
| SdpBuilder.AddMediaDescription | src/Subspace.Sdp/SdpBuilder.cs:160-176 | a fresh section with the given fields is appended after the existing ones, which stay unchanged, so section order is call order |
| SdpBuilder.SessionLines | src/Subspace.Sdp/SdpBuilder.cs:181-186 | six session lines, failing exactly when there is no origin or no bundle list |
| SdpBuilder.BuildMedia | src/Subspace.Sdp/SdpBuilder.cs:188-191 | the sections' texts fail exactly when some section has no connection |
| SdpBuilder.Build | src/Subspace.Sdp/SdpBuilder.cs:178-194 | building fails exactly when the origin or the bundle list is missing or some section has no connection |
| SdpRoundTrip.ModeLine | src/Subspace.Sdp/SdpMediaDescriptionBuilder.cs:333 | the written direction line reads back as the section's mode when it is named, and changes nothing otherwise |
| SdpRoundTrip.FingerprintLine | src/Subspace.Sdp/SdpParser.cs:160-164 | a written fingerprint line reads back as its hash function and value |
| SdpRoundTrip.RtcpMuxLine | src/Subspace.Sdp/SdpMediaDescriptionBuilder.cs:335 | the rtcp-mux line is ignored by the parser, so multiplexing is not carried |
| SdpRoundTrip.HeadLines | src/Subspace.Sdp/SdpMediaDescriptionBuilder.cs:332-340 | the c= line and the attribute lines before the format blocks read back as the connection, mode, media id, ICE and DTLS fields |
| SdpRoundTrip.RtpMapValueParse | src/Subspace.Sdp/SdpParser.cs:249-262 | a written rtpmap value updates the entry of its payload type with the encoding name, clock rate and parameters written |
| SdpRoundTrip.FormatBlock | src/Subspace.Sdp/SdpMediaDescriptionBuilder.cs:341-356 | a format's block turns the entry the m= line created into the format, with its feedback list made non-null |
| SdpRoundTrip.FormatsBlocks | src/Subspace.Sdp/SdpMediaDescriptionBuilder.cs:341-356 | the blocks of all formats, in order, read back every format in place |
| SdpRoundTrip.ParseFormatsOf | src/Subspace.Sdp/SdpParser.cs:94-99 | the payload types the m= line lists create one fresh entry per format, in order |
| SdpRoundTrip.MediaLineParse | src/Subspace.Sdp/SdpMediaDescriptionBuilder.cs:331 | a written m= line with formats reads back as media, port, protocol and the payload types in order |
| SdpRoundTrip.EmptyFormatsFail | src/Subspace.Sdp/SdpParser.cs:94-95 | a section with no formats writes an m= line ending in a space, whose empty payload type fails to parse |
| SdpRoundTrip.SourceLinesApply | src/Subspace.Sdp/SdpMediaDescriptionBuilder.cs:357-358 | the two ssrc lines read back as the SSRC only |
| SdpRoundTrip.CandidateValueParse | src/Subspace.Sdp/SdpParser.cs:180-193 | a written candidate line reads back as the candidate |
| SdpRoundTrip.CandidateLinesApply | src/Subspace.Sdp/SdpMediaDescriptionBuilder.cs:359-362 | the candidate lines append their candidates, read back, in order |
| SdpRoundTrip.SectionBody | src/Subspace.Sdp/SdpMediaDescriptionBuilder.cs:327-366 | the lines after a section's m= line turn the section it opens into the section as read back |
| SdpRoundTrip.SectionRoundTrip | src/Subspace.Sdp/SdpParser.cs:85-122 | round trip: a written section parses back field by field, except multiplexing, the ssrc names and the control URL and frame rate, whatever lines follow |
| SdpRoundTrip.IceParametersRoundTrip | src/Subspace.Sdp/SdpMediaDescriptionBuilder.cs:269-278 | round trip: after the ICE setter, the built section parses back with exactly the username fragment, password and options given (a null one as empty text), and every other field as the section read back before |
| SdpRoundTrip.IceDefaultsRoundTrip | src/Subspace.Sdp/SdpMediaDescriptionBuilder.cs:269 | with the default options the section parses back with ICE options "trickle" |
| SdpRoundTrip.DtlsParametersRoundTrip | src/Subspace.Sdp/SdpMediaDescriptionBuilder.cs:315-325 | round trip: after the DTLS setter, the built section parses back with exactly the role, hash function and fingerprint given, and every other field as the section read back before |
| SdpRoundTrip.DtlsDefaultsRoundTrip | src/Subspace.Sdp/SdpMediaDescriptionBuilder.cs:315 | with the default role the section parses back with setup "actpass" |
| SdpRoundTrip.SectionsRoundTrip | src/Subspace.Sdp/SdpParser.cs:101-121 | the sections after a section's lines are read back nested, so they are appended in reverse order |
| SdpRoundTrip.OriginLineParse | src/Subspace.Sdp/SdpParser.cs:277-290 | a written o= line of space-free fields reads back as the origin |
| SdpRoundTrip.SessionHead | src/Subspace.Sdp/SdpBuilder.cs:181-186 | the six session lines read back as version 0, origin, name, timing and the stream id with its "WMS " prefix, the bundle list being lost |
| SdpRoundTrip.SessionSections | src/Subspace.Sdp/SdpParser.cs:20-53 | the sections' lines parse into all the sections read back, in reverse order |
| SdpRoundTrip.BuildLinesRead | src/Subspace.Sdp/SdpBuilder.cs:178-202 | the built text is read back as the six session lines followed by every section's lines |
| SdpRoundTrip.BuildParse | src/Subspace.Sdp/SdpBuilder.cs:178-194 | round trip: a built description parses back to its session fields and every section, with the losses listed and the sections reversed |

## Left out

- **I/O and concurrency.** Sockets, `async`/`await`, timers, threads, `Debug.WriteLine` and exception logging are not modelled. A receive is the datagram and its sender; a send is the bytes that would go to the socket. The concurrent dictionaries become maps.
- **Crypto primitives.** AES, HMAC-SHA1, CRC-32, MD5 and SASLprep are parameters. The result types of the first three fix their lengths, not their values; MD5 and SASLprep are any functions of their shapes. They are external libraries (.NET cryptography, Force.Crc32, BouncyCastle), and every property here holds for any functions of those shapes.
- **Randomness and clock.** `RandomNumberGenerator`, `Random`, `Guid.NewGuid` and `DateTime.UtcNow` become parameters: the random bytes of `SetOrigin` and `GetRandomTieBreaker`, the ICE draws, the default GUIDs of `SetMediaStream`, and the time `now` of the sweep.
- **The DTLS handshake.** The BouncyCastle server, certificate generation and the exporter are left out; the exported keying material is an input. `DtlsContext` is not part of this model.
- **Missing constants.** `StunConstants`, `SrtpPolicy` and `SrtpDerivedkeys` are not part of this model. The STUN header length is taken as 20 bytes, the size section 6 of RFC 5389 fixes, and the policy is the record of keys and salts that `CreateSrtpPolicy` fills.
- **IPv6.** Endpoints are IPv4, an address and a port. The relay only encodes IPv4 XOR-MAPPED-ADDRESS values.
- **Text encodings.** UTF-8 and ASCII encodings of RTCP text are kept as the byte strings that carry them. An SDES item's length byte is the text length, and a goodbye's length getter counts the reason's characters; both equal the byte count only for ASCII. `RtcpParser.AsciiDecode` models the APP name decoding.
- **The corrected goodbye reading.** The code reads no count octet, so nothing in it says what a count reaching past the announced end means. `RtcpParser.GoodbyeReason` read at the cursor treats such a count as out of range.
- **Opaque SDP values.** The `Uri` of a=control and the `decimal` of a=framerate are kept as the text they are parsed from. They are not written by the builders.
- SdpParser.ParseMediaDescriptionAttribute: accepts any a=framerate and a=control value. In the code, a framerate that `decimal.Parse` rejects (format or overflow, culture-dependent) and a control value that `new Uri(value, UriKind.RelativeOrAbsolute)` rejects throw and abort the whole `Parse`; .NET's decimal and URI grammars are not modelled.
- **Numeric formatting.** Culture-specific formatting is not modelled. Integers print as invariant decimal digits and parse with the integer number style: leading and trailing white space (tab to carriage return, space), trailing NULs, and an invariant leading sign.
- **The RTSP client and the camera side.** The RTSP client, the RTP depacketizers and the scheduler are outside the relay core and are not modelled. Only `KeyValueParser` and `HashUtils` are.
- **SDP text and line breaks.** The SDP round trip is stated for text fields without line breaks. Fields that the parser splits on a space or '/' are taken free of that character. The builders write such fields unchecked, and the parser would read them differently.
- BigEndianUtils.Xor: the ensures states only the length; its content is stated by `XorValue` and `XorRightAligned`.
- StunRecordReader.ReadAttributes: the ensures states only that the failure is out of range; what a successful read contains is stated by `StunRecordWriter.ReadWrite` for every written record.
- RtcpClient.Send: the ensures states only when a datagram exists; its contents and length are stated by `RtcpClient.SendLayout` and `RtcpClient.ImagesLength`.
- SdpParser.ParseSession, SdpParser.ParseMediaSection, SdpParser.ParseMediaLines and SdpParser.Parse carry no ensures of their own. What they return is stated by the lemmas about them: `ParseMediaOrder`, the `SkipsUnknown` lemmas, `SectionRoundTrip` and `BuildParse`.
- SdpBuilder.SetSessionName, SetTiming, SetBundle and SetWebRtcMediaStreamId are plain field assignments. What `Build` and the parser make of those fields is stated by `SdpBuilder.Build` and `SdpRoundTrip.BuildParse`.

## Findings

Each row has two members. The as-written member models the code as it stands and exhibits the discrepancy. The corrected member proves the evidently intended property. The relay's own operations (`RtcpClient`, `StunHandler`, `SrtpEncryptor`, `WebRtcServer`, `SdpParser.Parse`) follow the code as written. Where the defect lies in a shared routine, its corrected form is selected by the `Reading` or `Writing` parameter.

| source | as written | input that shows it | evidently intended | confidence | as-written member | corrected member |
|---|---|---|---|---|---|---|
| src/Subspace.Rtp/Rtcp/RtcpPacketParser.cs:84 | the receiver report's own SSRC is sliced at offset 0 of the buffer, which holds the packet header | a receiver report with SSRC 0x11223344 and one block reads back with SSRC 0x81C90007 | read the SSRC at the cursor, right after the header | not executed | RtcpCodec.AsWrittenReceiverReportExample | RtcpCodec.RoundTripReceiverReport |
| src/Subspace.Rtp/Rtcp/RtcpPacketParser.cs:198-204 | goodbye SSRCs (and SDES chunk SSRCs and item text, lines 166 and 179) are sliced at offset 0 | a goodbye from sources 0x11223344 and 0x55667788 reads back with two sources 0x82CB0002 | read each field at the cursor | not executed | RtcpCodec.AsWrittenGoodbyeExample | RtcpCodec.RoundTripGoodbye |
| src/Subspace.Rtp/Rtcp/RtcpPacketParser.cs:205-212 | the reason is every byte left before the announced end, count octet, text and null padding together, while the length getter adds its own count octet and padding to the reason | one source and the reason "bye": the 12-byte packet reads back with a 4-byte reason and announces 16 bytes, so the receive loop skips the next packet's first word | read the count octet and keep that many bytes of text after it | not executed | RtcpCodec.AsWrittenGoodbyeOvercounts | RtcpCodec.RoundTripGoodbye |
| src/Subspace.Rtp/Rtcp/RtcpPacketSerializer.cs:30-31 | the 24-bit cumulative loss is written as a 32-bit word but the cursor advances 3 bytes, so the field holds the loss shifted right by 8 | a block losing 5 packets reads back with a loss of 0 | write the low 24 bits in 3 bytes | not executed | RtcpCodec.AsWrittenReceiverReport | RtcpCodec.ReportsAsReadCorrected |
| src/Subspace.Rtp/Rtcp/RtcpPacketSerializer.cs:51-65 | no SDES chunk gets its end-of-items byte, while the announced length counts one | chunks (1, [item 1 "A"]) and (2, []) read back with a second SSRC of 512 | end every chunk's item list with a zero byte | not executed | SdesCodec.AsWrittenSourceDescriptionExample | SdesCodec.RoundTripSourceDescription |
| src/Subspace.Stun/StunRecord.cs:201 | the fingerprint of an unsigned record is computed over a header announcing 32 trailing bytes, while the writer announces 8 | the relay's Binding indication, sent in answer to a success response | compute it over the header the writer emits | not executed | StunHandler.IndicationFingerprintMismatch | StunHandler.CorrectedRepliesFingerprinted |
| src/Subspace.Stun/StunRecord.cs:75-80 | `GetAsBytes` defaults its trailer length to 32 for every record | any record without message integrity | the trailer length the record is written with | not executed | StunChecks.AsWrittenFingerprintMismatch | StunChecks.CorrectedFingerprintChecks |
| src/Subspace.Rtp/Srtp/SrtpEncryptor.cs:133-136 | the roll-over counter grows whenever a sequence number is below the previous one | packets 10, 9, 11 get indices 10, 65545, 65547 | count wraps only, as in Appendix A of RFC 3711 | not executed | SrtpPacketIndex.AsWrittenReorderBumpsRoc | SrtpPacketIndex.CorrectedReorderKeepsIndex |
| src/Subspace.Ice/IceUtils.cs:9 | the alphabet has 39 entries, '0' twice and no lower-case letter | 4 and 22 draws give fewer than 2^24 usernames and 2^128 passwords | the 64 `ice-char` characters of section 15.1 of RFC 5245 | not executed | IceUtils.AsWrittenTooFewCredentials | IceUtils.CorrectedEnoughCredentials |
| src/Subspace.Sdp/SdpParser.cs:72 | the stream id keeps "WMS " because the substring starts one past the space, not past the pattern | the builder's "msid-semantic: WMS s1" parses to "WMS s1" | the text after " WMS " | not executed | SdpParser.MsidSemanticAsWritten | SdpParser.MsidSemanticCorrected |
| src/Subspace.Sdp/SdpParser.cs:68-70 | bundles are read from an attribute named "bundle", which the builder never writes | the builder's "group:BUNDLE 0 1" changes nothing | read "group" with the "BUNDLE " prefix | not executed | SdpParser.GroupBundleIgnored | SdpParser.GroupBundleCorrected |
| src/Subspace.Sdp/SdpParser.cs:206-215 | the ssrc switch compares the whole second field with "cname" and "msid", but the builder writes "cname:x" and "msid:x" | the builder's "1 cname:x" sets only the SSRC | split the field at ':' and store the value | not executed | SdpParser.SsrcCNameLost | SdpParser.SsrcCNameCorrected |
| src/Subspace.Sdp/SdpParser.cs:211-213 | the same for the msid line: the identifier and application data are dropped | the builder's "1 msid:m a" sets only the SSRC | store the identifier and the application data | not executed | SdpParser.SsrcMsIdLost | SdpParser.SsrcMsIdCorrected |

The following are proved as written and have no corrected counterpart:

- `SdpParser.ParseMediaOrder`: nested parsing appends media sections in reverse order of appearance.
- `RtcpClient.GoodbyeWithoutReasonDropsDatagram`: a goodbye without a reason has a null reason, whose length read throws, so the whole datagram is lost.
- `Rtcp.ReportLengthWraps`: the 16-bit length field wraps for very large reports.
- `SdpRoundTrip.EmptyFormatsFail`: a section without formats builds an m= line that does not parse.
