/**
 * `AskSrudpCmd`, run on the destination peer. It picks a local address of the issuer's IP version,
 * starts a secure reliable UDP connect toward the issuer, acknowledges with its own identity and
 * the chosen address, and once connected validates the socket and admits it to the registry.
 * (`AskSrudpCmd.encode` and `AskSrudpCmd.decode` are `Framing.EncodeInfoAddr` and
 * `Framing.DecodeInfoAddr`.)
 */
module AskSrudpCmd {
  import opened Wrappers
  import opened Bytes
  import opened Identity
  import opened Framing
  import opened P2P

  /** The fixed failure payload `b"ask_srudp_thread() failed"`. */
  const FailurePayload: seq<byte> :=
    [0x61, 0x73, 0x6b, 0x5f, 0x73, 0x72, 0x75, 0x64, 0x70, 0x5f, 0x74, 0x68, 0x72,
     0x65, 0x61, 0x64, 0x28, 0x29, 0x20, 0x66, 0x61, 0x69, 0x6c, 0x65, 0x64]

  /**
   * The decoding inlined in `AskSrudpCmd.thread`: a `PeerInfo` then a `FormalAddr`. Unlike
   * `AskSrudpCmd.decode` it does not check that the whole body was consumed.
   */
  function DecodeRequest(cs: Codecs, body: seq<byte>): Option<(PeerInfo, FormalAddr)>
  {
    match ReadInfoAddr(cs, body, 0)
    case None => None
    case Some((info, addr, _)) => Some((info, addr))
  }

  /** The handler reads an encoded request the same way whatever bytes follow it. */
  lemma DecodeRequestIgnoresTrailing(cs: Codecs, info: PeerInfo, addr: FormalAddr, extra: seq<byte>)
    requires SelfDelimiting(cs.info) && SelfDelimiting(cs.addr)
    ensures DecodeRequest(cs, EncodeInfoAddr(cs, info, addr) + extra) == Some((info, addr))
  {
    ReadInfoAddrEncoded(cs, info, addr, EncodeInfoAddr(cs, info, addr) + extra);
  }

  function SameVersion(v: IpVersion): FormalAddr -> bool
  {
    (a: FormalAddr) => a.host.version == v
  }

  /**
   * The address the destination announces: the host of its first own address with the issuer's
   * IP version, with the issuer's port, or with the drawn `randomPort` when the issuer is loopback.
   */
  function ResponseAddr(addresses: seq<FormalAddr>, issuerAddr: FormalAddr, randomPort: EphemeralPort)
    : (r: Option<FormalAddr>)
    ensures r.None? <==> forall j :: 0 <= j < |addresses| ==> addresses[j].host.version != issuerAddr.host.version
    ensures r.Some? ==> exists i :: (0 <= i < |addresses| && r.value.host == addresses[i].host &&
                                     forall j :: 0 <= j < i ==> addresses[j].host.version != issuerAddr.host.version)
    ensures r.Some? ==> r.value.host.version == issuerAddr.host.version
    ensures r.Some? && !issuerAddr.host.isLoopback ==> r.value.port == issuerAddr.port
    ensures r.Some? && issuerAddr.host.isLoopback ==> r.value.port == randomPort && 1024 <= r.value.port <= 65535
  {
    match FirstIndex(addresses, SameVersion(issuerAddr.host.version))
    case None => None
    case Some(i) =>
      Some(FormalAddr(addresses[i].host, if issuerAddr.host.isLoopback then randomPort else issuerAddr.port))
  }

  /** The for/else scan of `p2p.my_info.addresses`; `randomPort` stands for `random.randint(1024, 65535)`. */
  method SelectLocalAddr(addresses: seq<FormalAddr>, issuerAddr: FormalAddr, randomPort: EphemeralPort)
    returns (destAddr: Option<FormalAddr>)
    ensures destAddr == ResponseAddr(addresses, issuerAddr, randomPort)
  {
    for i := 0 to |addresses|
      invariant forall j :: 0 <= j < i ==> addresses[j].host.version != issuerAddr.host.version
    {
      var address := addresses[i];
      if address.host.version == issuerAddr.host.version {
        if issuerAddr.host.isLoopback {
          destAddr := Some(FormalAddr(address.host, randomPort));
        } else {
          destAddr := Some(FormalAddr(address.host, issuerAddr.port));
        }
        return;
      }
    }
    return None;
  }

  /** Nothing keeps the drawn loopback port away from the issuer's own port. */
  lemma LoopbackPortMayEqualIssuerPort(addresses: seq<FormalAddr>, issuerAddr: FormalAddr)
    requires issuerAddr.host.isLoopback && 1024 <= issuerAddr.port
    requires exists j :: 0 <= j < |addresses| && addresses[j].host.version == issuerAddr.host.version
    ensures ResponseAddr(addresses, issuerAddr, issuerAddr.port).Some?
    ensures ResponseAddr(addresses, issuerAddr, issuerAddr.port).value.port == issuerAddr.port
  {
  }

  datatype Family = AfInet | AfInet6

  /** A `new_sock.connect` submitted to the executor: the socket family, the target and an explicit local port. */
  datatype Dial = Dial(family: Family, target: FormalAddr, localPort: Option<Port>)

  function DialFor(issuerAddr: FormalAddr, destAddr: FormalAddr): Dial
  {
    Dial(if issuerAddr.host.version == V4 then AfInet else AfInet6,
         issuerAddr,
         if issuerAddr.host.isLoopback then Some(destAddr.port) else None)
  }

  /**
   * The dial agrees with the announced address: its family is the IP version of both the issuer's
   * and the chosen local host, and a loopback issuer is dialled from exactly the announced port.
   */
  lemma DialMatchesResponseAddr(addresses: seq<FormalAddr>, issuerAddr: FormalAddr, randomPort: EphemeralPort)
    requires ResponseAddr(addresses, issuerAddr, randomPort).Some?
    ensures
      var destAddr := ResponseAddr(addresses, issuerAddr, randomPort).value;
      var dial := DialFor(issuerAddr, destAddr);
      (dial.family == AfInet <==> issuerAddr.host.version == V4) &&
      (dial.family == AfInet <==> destAddr.host.version == V4) &&
      dial.target == issuerAddr &&
      (dial.localPort.Some? <==> issuerAddr.host.isLoopback) &&
      (issuerAddr.host.isLoopback ==> dial.localPort == Some(randomPort))
  {
  }

  /** How the work after the acknowledgement ends. */
  datatype PostAck =
    | ConnectFault               // fut.result(20.0) raises or times out
    | WrapFault                  // settimeout or the Sock wrapper raises, before the pool sees the socket
    | HandshakeFault(validated: bool) // validate_the_other or measure_delay_time raises; whether VALIDATED was set by then
    | Handshaken(validated: bool)     // both waits returned; whether VALIDATED ended up set

  /**
   * `AskSrudpCmd.thread`. `requester` is `p2p.get_peer_by_sock(sock)`; `socketFault` says that
   * creating the socket or submitting the connect raised; `post` is how the rest ends.
   */
  method Thread(node: Node, requester: Option<Peer>, cs: Codecs, body: seq<byte>,
                randomPort: EphemeralPort, socketFault: bool, post: PostAck)
    returns (responses: seq<Response>, dial: Option<Dial>, sock: Option<Sock>)
    modifies node, node.peers
    ensures
      var req := DecodeRequest(cs, body);
      var destAddr := if requester.Some? && req.Some? then ResponseAddr(node.myInfo.addresses, req.value.1, randomPort) else None;
      var acked := destAddr.Some? && !socketFault;
      // Before the acknowledgement: one failure response, nothing dialled, nothing changed.
      (!acked ==>
         responses == [Response(Failed, FailurePayload)] && dial.None? && sock.None? &&
         node.peers == old(node.peers) && node.pool == old(node.pool)) &&
      // The acknowledgement comes first; any fault after it adds a second, failure response.
      (acked ==>
         dial == Some(DialFor(req.value.1, destAddr.value)) &&
         responses == [Response(Success, EncodeInfoAddr(cs, node.myInfo, destAddr.value))] +
                      (if post.Handshaken? then [] else [Response(Failed, FailurePayload)])) &&
      // The socket is wrapped and pooled once the connect and the wrapping succeeded.
      (sock.Some? <==> acked && (post.HandshakeFault? || post.Handshaken?)) &&
      (sock.None? ==> node.pool == old(node.pool)) &&
      (sock.Some? ==>
         fresh(sock.value) && sock.value.remoteKey == req.value.0.publicKey &&
         node.pool == old(node.pool) + [sock.value] &&
         sock.value.validated == post.validated &&
         sock.value.closed == (post == Handshaken(false)))
    ensures
      var req := DecodeRequest(cs, body);
      var destAddr := if requester.Some? && req.Some? then ResponseAddr(node.myInfo.addresses, req.value.1, randomPort) else None;
      var admit := destAddr.Some? && !socketFault && post == Handshaken(true);
      var known := if admit then PeerByKey(old(node.peers), req.value.0.publicKey) else None;
      // Find or create: a validated socket joins the peer with the issuer's key, else one Peer is appended.
      ((!admit || known.Some?) ==> node.peers == old(node.peers)) &&
      ((admit && known.None?) ==>
         |node.peers| == |old(node.peers)| + 1 && node.peers[..|old(node.peers)|] == old(node.peers) &&
         fresh(node.peers[|old(node.peers)|]) &&
         node.peers[|old(node.peers)|].info == req.value.0 && node.peers[|old(node.peers)|].socks == []) &&
      (forall p :: p in old(node.peers) ==>
         p.socks == if known.Some? && p == old(node.peers)[known.value] then old(p.socks) + [sock.value] else old(p.socks))
    ensures UniqueKeys(old(node.peers)) ==> UniqueKeys(node.peers)
  {
    responses, dial, sock := [], None, None;
    var completed := false;
    if requester.Some? {
      var req := DecodeRequest(cs, body);
      if req.Some? {
        var (issuerInfo, issuerAddr) := req.value;
        var destAddr := SelectLocalAddr(node.myInfo.addresses, issuerAddr, randomPort);
        if destAddr.Some? && !socketFault {
          dial := Some(DialFor(issuerAddr, destAddr.value));
          responses := responses + [Response(Success, EncodeInfoAddr(cs, node.myInfo, destAddr.value))];
          if post.HandshakeFault? || post.Handshaken? {
            var issuerSock := new Sock(issuerInfo.publicKey);
            node.pool := node.pool + [issuerSock];
            sock := Some(issuerSock);
            issuerSock.validated := post.validated;
            if post.Handshaken? {
              if issuerSock.validated {
                var known := PeerByKey(node.peers, issuerInfo.publicKey);
                if known.None? {
                  var issuerPeer := new Peer(issuerInfo);
                  node.peers := node.peers + [issuerPeer];
                } else {
                  var issuerPeer := node.peers[known.value];
                  issuerPeer.socks := issuerPeer.socks + [issuerSock];
                }
              } else {
                issuerSock.Close();
              }
              completed := true;
            }
          }
        }
      }
    }
    if !completed {
      responses := responses + [Response(Failed, FailurePayload)];
    }
  }
}
