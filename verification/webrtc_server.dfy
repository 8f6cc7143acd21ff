/** `WebRtcServer`: the relay's UDP loop. Every datagram first refreshes
    (or creates) its sender's connection and is then handed to the
    multiplexer; an RTP packet for a client is protected with SRTP and sent
    once the client's DTLS handshake has produced keying material. The
    socket is left out: a send is the datagram it would hand to the socket. */
module WebRtcServer {
  import opened Results
  import opened Bytes
  import opened Net
  import opened WebRtcConnectionManager
  import DtlsSrtpKeys
  import DtlsSrtpMultiplexer
  import Aes = AesCounterMode
  import SrtpPacketIndex
  import SrtpStreamContext
  import SrtpEncryptor

  /** The server's state: the peers and the SRTP encryptor's contexts. */
  datatype Server = Server(connections: Registry, encryptor: SrtpEncryptor.Encryptor)

  /** A datagram handed to the socket. */
  datatype Datagram = Datagram(bytes: Bytes, to: Endpoint)

  /** One received datagram: the new state and the handler it went to
      (`None` when the multiplexer dropped it). */
  datatype Received = Received(server: Server, handler: Option<DtlsSrtpMultiplexer.Protocol>)

  /** One iteration of the receive loop at time `now`: `GetOrAdd` for the
      sender, the timestamp set, then the multiplexer's choice of handler. */
  function Receive(s: Server, from: Endpoint, buffer: Bytes, now: int): (r: Received)
    ensures from in r.server.connections
    ensures r.server.connections[from].lastReceive == now
    ensures r.server.connections.Keys == s.connections.Keys + {from}
    ensures forall ep | ep in s.connections && ep != from :: r.server.connections[ep] == s.connections[ep]
    ensures from in s.connections ==> r.server.connections[from] == s.connections[from].(lastReceive := now)
    ensures r.server.encryptor == s.encryptor
    ensures r.handler == DtlsSrtpMultiplexer.Route(buffer)
  {
    var (reg, c) := GetOrAdd(s.connections, from);
    Received(s.(connections := reg[from := c.(lastReceive := now)]), DtlsSrtpMultiplexer.Route(buffer))
  }

  /** The result of `SendRtpToClientAsync`: the new state and the datagram
      sent (`None` when the client is not ready); an exception from the
      encryptor escapes the call. */
  datatype Sent = Sent(server: Server, result: Result<Option<Datagram>>)

  /** Keying material, once the handshake has exported it. */
  predicate Ready(s: Server, client: Endpoint)
  {
    client in s.connections && s.connections[client].keyMaterial.Some?
  }

  /** The policy to protect with: the cached one, or one derived from the
      keying material (`??=`). */
  function Policy(c: PeerConnection): (p: DtlsSrtpKeys.SrtpPolicy)
    requires c.keyMaterial.Some?
    ensures c.srtpPolicy.Some? ==> p == c.srtpPolicy.value
    ensures c.srtpPolicy.None? ==> p == DtlsSrtpKeys.CreateSrtpPolicy(c.keyMaterial.value)
  {
    if c.srtpPolicy.Some? then c.srtpPolicy.value else DtlsSrtpKeys.CreateSrtpPolicy(c.keyMaterial.value)
  }

  /** `SendRtpToClientAsync`: nothing happens for an unknown client or one
      without keying material; otherwise the policy is cached on the
      connection, the packet is protected for the connection's endpoint,
      and the result goes to that endpoint. Errors of the socket send are
      swallowed, so a protected packet always counts as sent. */
  function SendRtp(v: SrtpPacketIndex.Variant, aes: Aes.Cipher, hmac: SrtpEncryptor.Mac,
                   s: Server, client: Endpoint, rtp: SrtpEncryptor.Outgoing): (r: Sent)
    ensures !Ready(s, client) ==> r == Sent(s, Ok(None))
    ensures Ready(s, client) ==>
              var c := s.connections[client];
              var out := SrtpEncryptor.Encrypt(v, aes, hmac, Policy(c), s.encryptor, rtp, c.endpoint);
              && r.server.connections == s.connections[client := c.(srtpPolicy := Some(Policy(c)))]
              && r.server.encryptor == out.encryptor
              && (out.result.Ok? ==> r.result == Ok(Some(Datagram(out.result.value, c.endpoint))))
              && (out.result.Fail? ==> r.result == Fail(out.result.error))
  {
    match Get(s.connections, client)
    case None => Sent(s, Ok(None))
    case Some(c) =>
      if c.keyMaterial.None? then Sent(s, Ok(None))
      else
        var policy := Policy(c);
        var cached := s.connections[client := c.(srtpPolicy := Some(policy))];
        var out := SrtpEncryptor.Encrypt(v, aes, hmac, policy, s.encryptor, rtp, c.endpoint);
        var next := Server(cached, out.encryptor);
        match out.result
        case Ok(bytes) => Sent(next, Ok(Some(Datagram(bytes, c.endpoint))))
        case Fail(e) => Sent(next, Fail(e))
  }

  /** The policy is derived at most once per connection: after a send it
      is cached, later sends reuse it even if the keying material changes,
      and it is the server half of the material present at the first send. */
  lemma PolicyDerivedOnce(v: SrtpPacketIndex.Variant, aes: Aes.Cipher, hmac: SrtpEncryptor.Mac,
                          s: Server, client: Endpoint, rtp: SrtpEncryptor.Outgoing, rtp': SrtpEncryptor.Outgoing,
                          material: Bytes)
    requires Ready(s, client)
    ensures var c := s.connections[client];
            var s1 := SendRtp(v, aes, hmac, s, client, rtp).server;
            var s1' := s1.(connections := s1.connections[client := s1.connections[client].(keyMaterial := Some(material))]);
            var s2 := SendRtp(v, aes, hmac, s1', client, rtp').server;
            && s1.connections[client].srtpPolicy == Some(Policy(c))
            && (c.srtpPolicy.None? ==> Policy(c) == DtlsSrtpKeys.CreateSrtpPolicy(c.keyMaterial.value))
            && s2.connections[client].srtpPolicy == Some(Policy(c))
  {
  }

  /** In a well-formed registry the protected packet goes to the client
      it was meant for, under the context of (SSRC, client). */
  lemma SentToClient(v: SrtpPacketIndex.Variant, aes: Aes.Cipher, hmac: SrtpEncryptor.Mac,
                     s: Server, client: Endpoint, rtp: SrtpEncryptor.Outgoing)
    requires WellFormed(s.connections)
    ensures var r := SendRtp(v, aes, hmac, s, client, rtp);
            r.result.Ok? && r.result.value.Some? ==> r.result.value.value.to == client
    ensures var r := SendRtp(v, aes, hmac, s, client, rtp);
            Ready(s, client) && |rtp.rawBytes| >= rtp.payloadOffset ==>
              SrtpStreamContext.ContextKey(rtp.ssrc, client) in r.server.encryptor.streams
  {
  }

  /** Receiving keeps the registry well formed, and the sender of a datagram
      survives every sweep up to ten seconds after it. */
  lemma ReceiveKeepsAlive(s: Server, from: Endpoint, buffer: Bytes, now: int, later: int)
    requires WellFormed(s.connections)
    requires now <= later <= now + ClientReceiveTimeout
    ensures var r := Receive(s, from, buffer, now).server;
            WellFormed(r.connections) && from in Survivors(r.connections, later)
  {
  }
}
