/** `WebRtcConnectionManager`: the relay's peers, one `PeerConnection` per
    remote endpoint, created on the first datagram from that endpoint and
    dropped by a periodic sweep once nothing has been received from it for
    more than ten seconds. The concurrent dictionary is a map; the timer
    becomes the time `now` handed to the sweep. */
module WebRtcConnectionManager {
  import opened Results
  import opened Bytes
  import opened Net
  import DtlsSrtpKeys

  /** Times are `DateTime` ticks of 100 ns. */
  const TicksPerSecond: int := 10_000_000

  /** `_clientReceiveTimeout`: ten seconds. */
  const ClientReceiveTimeout: int := 10 * TicksPerSecond

  /** `PeerConnection`: the endpoint, the keying material the DTLS handshake
      exported into its `DtlsContext` (none before the handshake ends),
      the time of the last datagram, and the SRTP policy once derived. */
  datatype PeerConnection = PeerConnection(
    endpoint: Endpoint,
    keyMaterial: Option<Bytes>,
    lastReceive: int,
    srtpPolicy: Option<DtlsSrtpKeys.SrtpPolicy>)

  type Registry = map<Endpoint, PeerConnection>

  /** Every connection is filed under its own endpoint. */
  predicate WellFormed(reg: Registry)
  {
    forall ep | ep in reg :: reg[ep].endpoint == ep
  }

  /** A connection as `GetOrAdd` creates it: a fresh `DtlsContext`, no
      policy, the default (zero) timestamp. */
  function Fresh(ep: Endpoint): (c: PeerConnection)
    ensures c.endpoint == ep && c.keyMaterial.None? && c.srtpPolicy.None?
  {
    PeerConnection(ep, None, 0, None)
  }

  /** `GetOrAdd`: the stored connection, or a fresh one that is stored. */
  function GetOrAdd(reg: Registry, ep: Endpoint): (r: (Registry, PeerConnection))
    ensures ep in reg ==> r.0 == reg && r.1 == reg[ep]
    ensures ep !in reg ==> r.0 == reg[ep := Fresh(ep)] && r.1 == Fresh(ep)
    ensures ep in r.0 && r.0[ep] == r.1 && r.0.Keys == reg.Keys + {ep}
  {
    if ep in reg then (reg, reg[ep]) else (reg[ep := Fresh(ep)], Fresh(ep))
  }

  /** `Get`: the stored connection, `None` for `null`; nothing is stored. */
  function Get(reg: Registry, ep: Endpoint): (r: Option<PeerConnection>)
    ensures r.Some? <==> ep in reg
    ensures r.Some? ==> r.value == reg[ep]
  {
    if ep in reg then Some(reg[ep]) else None
  }

  /** `RemoveClient`: the entry for `ep` goes, every other stays. */
  function RemoveClient(reg: Registry, ep: Endpoint): (r: Registry)
    ensures ep !in r
    ensures forall k | k in reg && k != ep :: k in r && r[k] == reg[k]
    ensures r.Keys == reg.Keys - {ep}
  {
    reg - {ep}
  }

  /** `GetAll`: the stored connections. */
  function GetAll(reg: Registry): (r: set<PeerConnection>)
    ensures forall ep | ep in reg :: reg[ep] in r
    ensures forall c | c in r :: exists ep | ep in reg :: reg[ep] == c
  {
    reg.Values
  }

  /** Nothing received for more than the timeout: strictly more. */
  predicate Stale(now: int, c: PeerConnection)
  {
    now - c.lastReceive > ClientReceiveTimeout
  }

  /** What a sweep at `now` should leave: exactly the connections that are
      not stale, each unchanged. */
  function Survivors(reg: Registry, now: int): Registry
  {
    map ep | ep in reg && !Stale(now, reg[ep]) :: reg[ep]
  }

  /** `RemoveStaleClients`: over a snapshot of the dictionary, every stale
      connection is removed by its key. */
  method RemoveStaleClients(reg: Registry, now: int) returns (r: Registry)
    ensures r == Survivors(reg, now)
  {
    var snapshot := reg;
    var pending := snapshot.Keys;
    r := reg;
    while pending != {}
      invariant pending <= snapshot.Keys && r.Keys <= snapshot.Keys
      invariant forall ep | ep in snapshot :: ep in r <==> ep in pending || !Stale(now, snapshot[ep])
      invariant forall ep | ep in r :: r[ep] == snapshot[ep]
      decreases |pending|
    {
      var ep :| ep in pending;
      if Stale(now, snapshot[ep]) {
        r := RemoveClient(r, ep);
      }
      pending := pending - {ep};
    }
    assert r.Keys == Survivors(reg, now).Keys;
  }

  /** A connection heard from exactly ten seconds ago survives; one
      tick later it is removed. */
  lemma TimeoutBoundary(reg: Registry, ep: Endpoint, now: int)
    requires ep in reg
    ensures now - reg[ep].lastReceive == ClientReceiveTimeout ==> ep in Survivors(reg, now)
    ensures now - reg[ep].lastReceive == ClientReceiveTimeout + 1 ==> ep !in Survivors(reg, now)
  {
  }

  /** A second sweep at the same time removes nothing more. */
  lemma SweepIdempotent(reg: Registry, now: int)
    ensures Survivors(Survivors(reg, now), now) == Survivors(reg, now)
  {
  }

  /** A later sweep keeps no more than an earlier one. */
  lemma LaterSweepKeepsFewer(reg: Registry, now: int, later: int)
    requires now <= later
    ensures Survivors(reg, later).Keys <= Survivors(reg, now).Keys
  {
  }

  /** Creating, removing and sweeping keep every connection under its own
      endpoint, so there is at most one connection per endpoint. */
  lemma OperationsKeepWellFormed(reg: Registry, ep: Endpoint, now: int)
    requires WellFormed(reg)
    ensures WellFormed(GetOrAdd(reg, ep).0)
    ensures WellFormed(RemoveClient(reg, ep))
    ensures WellFormed(Survivors(reg, now))
  {
  }

  /** In a well-formed registry `GetAll` holds one connection per endpoint:
      distinct endpoints give distinct connections, and each connection
      is the one stored under its endpoint. */
  lemma OneConnectionPerEndpoint(reg: Registry, c: PeerConnection)
    requires WellFormed(reg)
    ensures c in GetAll(reg) <==> c.endpoint in reg && reg[c.endpoint] == c
  {
    if c in GetAll(reg) {
      var ep :| ep in reg && reg[ep] == c;
    }
  }

  /** `GetOrAdd` twice is `GetOrAdd` once; after `RemoveClient` the next
      `GetOrAdd` starts afresh. */
  lemma GetOrAddIdempotent(reg: Registry, ep: Endpoint)
    ensures var (reg', c) := GetOrAdd(reg, ep);
            GetOrAdd(reg', ep) == (reg', c)
    ensures GetOrAdd(RemoveClient(reg, ep), ep).1 == Fresh(ep)
    ensures Get(RemoveClient(reg, ep), ep).None?
  {
  }
}
