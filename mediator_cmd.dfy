/**
 * `MediatorCmd`, run on the broker peer. The request is issuer `PeerInfo` ‖ issuer `FormalAddr` ‖
 * 4-byte big-endian key length ‖ destination key bytes; the handler finds the destination among
 * the known peers, forwards the issuer's identity and address to it, and relays its answer.
 * (`MediatorCmd.decode`, which reads that answer on the issuer, is `Framing.DecodeInfoAddr`.)
 */
module MediatorCmd {
  import opened Wrappers
  import opened Bytes
  import opened Identity
  import opened Framing
  import opened P2P

  /** The fixed failure payload `b"mediator_thread() failed"`. */
  const FailurePayload: seq<byte> :=
    [0x6d, 0x65, 0x64, 0x69, 0x61, 0x74, 0x6f, 0x72, 0x5f, 0x74, 0x68, 0x72,
     0x65, 0x61, 0x64, 0x28, 0x29, 0x20, 0x66, 0x61, 0x69, 0x6c, 0x65, 0x64]

  datatype Request = Request(issuerInfo: PeerInfo, issuerAddr: FormalAddr, destKey: VerifyingKey)

  /**
   * `MediatorCmd.encode`. Python's `len(key).to_bytes(4, "big")` raises OverflowError for a key of
   * 2^32 bytes or more; that is the `None` case.
   */
  function Encode(cs: Codecs, info: PeerInfo, addr: FormalAddr, destKey: VerifyingKey): (r: Option<seq<byte>>)
    ensures r.Some? <==> |cs.key.toString(destKey)| < 0x1_0000_0000
    ensures r.Some? ==>
      var head, key := EncodeInfoAddr(cs, info, addr), cs.key.toString(destKey);
      |r.value| == |head| + 4 + |key| && r.value[..|head|] == head &&
      FromBigEndian(r.value[|head|..|head| + 4]) == |key| && r.value[|head| + 4..] == key
  {
    var head, key := EncodeInfoAddr(cs, info, addr), cs.key.toString(destKey);
    if |key| >= 0x1_0000_0000 then None
    else
      Pow256Four();
      var length := ToBigEndian(|key|, 4);
      assert (head + length + key)[|head|..|head| + 4] == length;
      Some(head + length + key)
  }

  /**
   * The decoding inlined in `MediatorCmd.thread`: info, addr, a length field read with
   * `io.read(4)`, that many key bytes read with `io.read(length)` (both may come back short),
   * `VerifyingKey.from_string`, then the full-consumption assertion.
   */
  function DecodeRequest(cs: Codecs, body: seq<byte>): Result<Request, DecodeError>
  {
    match ReadInfoAddr(cs, body, 0)
    case None => Err(Malformed)
    case Some((info, addr, pos)) =>
      var (lengthBytes, pos') := Read(body, pos, 4);
      var (keyBytes, pos'') := Read(body, pos', FromBigEndian(lengthBytes));
      match cs.key.fromString(keyBytes)
      case None => Err(Malformed)
      case Some(key) => if pos'' == |body| then Ok(Request(info, addr, key)) else Err(NotConsumed)
  }

  /**
   * Any length field that covers the key bytes is accepted: `io.read(length)` stops at the end of
   * the buffer, so the consumption check cannot see a declared length larger than what follows.
   */
  lemma DecodeRequestAccepts(cs: Codecs, info: PeerInfo, addr: FormalAddr, keyBytes: seq<byte>, key: VerifyingKey, declared: nat)
    requires SelfDelimiting(cs.info) && SelfDelimiting(cs.addr)
    requires cs.key.fromString(keyBytes) == Some(key)
    requires |keyBytes| <= declared < Pow256(4)
    ensures DecodeRequest(cs, EncodeInfoAddr(cs, info, addr) + ToBigEndian(declared, 4) + keyBytes)
         == Ok(Request(info, addr, key))
  {
    var head, length := EncodeInfoAddr(cs, info, addr), ToBigEndian(declared, 4);
    var body := head + length + keyBytes;
    ReadInfoAddrEncoded(cs, info, addr, body);
    assert body[|head|..|head| + 4] == length;
    var (lengthRead, p3) := Read(body, |head|, 4);
    assert lengthRead == length && FromBigEndian(lengthRead) == declared;
    var (keyRead, p4) := Read(body, p3, declared);
    assert p4 == |body|;
    assert keyRead == keyBytes;
  }

  /**
   * A body that ends inside the length field is accepted too, when `from_string` accepts no bytes:
   * the short field reads as some length, and `io.read` of it at the end of the buffer returns nothing.
   */
  lemma DecodeRequestAcceptsCutLength(cs: Codecs, info: PeerInfo, addr: FormalAddr, rest: seq<byte>, key: VerifyingKey)
    requires SelfDelimiting(cs.info) && SelfDelimiting(cs.addr)
    requires cs.key.fromString([]) == Some(key)
    requires |rest| < 4
    ensures DecodeRequest(cs, EncodeInfoAddr(cs, info, addr) + rest) == Ok(Request(info, addr, key))
  {
    var head := EncodeInfoAddr(cs, info, addr);
    var body := head + rest;
    ReadInfoAddrEncoded(cs, info, addr, body);
    var (lengthRead, p3) := Read(body, |head|, 4);
    assert p3 == |body|;
    var (keyRead, p4) := Read(body, p3, FromBigEndian(lengthRead));
    assert keyRead == [];
  }

  /** Decoding what `MediatorCmd.encode` writes returns the same issuer info, address and key. */
  lemma RequestRoundTrip(cs: Codecs, info: PeerInfo, addr: FormalAddr, destKey: VerifyingKey)
    requires Sound(cs)
    requires |cs.key.toString(destKey)| < 0x1_0000_0000
    ensures Encode(cs, info, addr, destKey).Some?
    ensures DecodeRequest(cs, Encode(cs, info, addr, destKey).value) == Ok(Request(info, addr, destKey))
  {
    var key := cs.key.toString(destKey);
    Pow256Four();
    DecodeRequestAccepts(cs, info, addr, key, destKey, |key|);
  }

  /** An encoded request followed by any trailing bytes fails the full-consumption assertion. */
  lemma RequestRejectsTrailing(cs: Codecs, info: PeerInfo, addr: FormalAddr, destKey: VerifyingKey, extra: seq<byte>)
    requires Sound(cs)
    requires |cs.key.toString(destKey)| < 0x1_0000_0000
    requires extra != []
    ensures Encode(cs, info, addr, destKey).Some?
    ensures DecodeRequest(cs, Encode(cs, info, addr, destKey).value + extra) == Err(NotConsumed)
  {
    Pow256Four();
    var head, key := EncodeInfoAddr(cs, info, addr), cs.key.toString(destKey);
    var length := ToBigEndian(|key|, 4);
    var body := head + length + key + extra;
    assert Encode(cs, info, addr, destKey).value + extra == body;
    ReadInfoAddrEncoded(cs, info, addr, body);
    assert body[|head|..|head| + 4] == length;
    assert body[|head| + 4..|head| + 4 + |key|] == key;
  }

  /**
   * What an accepted request looks like (canonical value decoders): the encoded issuer info and
   * address, then a length field that is either complete and no smaller than the rest of the
   * buffer, or cut short with no key bytes after it, then bytes `from_string` accepts.
   * With DecodeRequestAccepts and DecodeRequestAcceptsCutLength this characterises acceptance in
   * both directions.
   */
  lemma DecodeRequestShape(cs: Codecs, body: seq<byte>)
    requires Canonical(cs.info) && Canonical(cs.addr)
    ensures DecodeRequest(cs, body).Ok? ==>
      var req := DecodeRequest(cs, body).value;
      var h := |EncodeInfoAddr(cs, req.issuerInfo, req.issuerAddr)|;
      h <= |body| && body[..h] == EncodeInfoAddr(cs, req.issuerInfo, req.issuerAddr) &&
      (h + 4 <= |body| ==>
         FromBigEndian(body[h..h + 4]) >= |body| - h - 4 && cs.key.fromString(body[h + 4..]) == Some(req.destKey)) &&
      (|body| < h + 4 ==> cs.key.fromString([]) == Some(req.destKey))
  {
    if DecodeRequest(cs, body).Ok? {
      var req := DecodeRequest(cs, body).value;
      var (info, n1) := cs.info.decode(body[0..]).value;
      assert body[0..] == body;
      var (addr, n2) := cs.addr.decode(body[n1..]).value;
      assert body[n1..][..n2] == body[n1..n1 + n2];
      assert body[..n1 + n2] == body[..n1] + body[n1..n1 + n2];
      var (lengthRead, p3) := Read(body, n1 + n2, 4);
      var (keyRead, p4) := Read(body, p3, FromBigEndian(lengthRead));
      assert keyRead == body[p3..];
    }
  }

  /** A peer whose validated key is present and equal to `key`. */
  function ValidatedAs(validatedKey: Peer -> Option<VerifyingKey>, key: VerifyingKey): Peer -> bool
  {
    (p: Peer) => validatedKey(p) == Some(key)
  }

  /** The for/else scan of `p2p.peers` for the destination. */
  method FindDestination(peers: seq<Peer>, validatedKey: Peer -> Option<VerifyingKey>, destKey: VerifyingKey)
    returns (r: Option<nat>)
    ensures r == FirstIndex(peers, ValidatedAs(validatedKey, destKey))
  {
    for i := 0 to |peers|
      invariant forall j :: 0 <= j < i ==> validatedKey(peers[j]) != Some(destKey)
    {
      var publicKey := validatedKey(peers[i]);
      if publicKey.Some? && publicKey.value == destKey {
        return Some(i);
      }
    }
    return None;
  }

  /**
   * `MediatorCmd.thread`. `requester` is what `p2p.get_peer_by_sock(sock)` returns, `validatedKey`
   * answers `get_validated_key()` for each peer, and `rpc` is the outcome of `throw_command`.
   * The handler answers exactly once, and contacts the destination only when it found one.
   */
  method Thread(node: Node, requester: Option<Peer>, validatedKey: Peer -> Option<VerifyingKey>,
                cs: Codecs, body: seq<byte>, rpc: RpcOutcome)
    returns (responses: seq<Response>, thrown: seq<Throw>)
    ensures |responses| == 1 && |thrown| <= 1
    ensures
      var req := DecodeRequest(cs, body);
      var dest :=
        if requester.Some? && validatedKey(requester.value).Some? && req.Ok?
        then FirstIndex(node.peers, ValidatedAs(validatedKey, req.value.destKey))
        else None;
      (dest.None? ==> thrown == [] && responses == [Response(Failed, FailurePayload)]) &&
      (dest.Some? ==>
         thrown == [Throw(node.peers[dest.value], RequestAskSrudp,
                          EncodeInfoAddr(cs, req.value.issuerInfo, req.value.issuerAddr))] &&
         responses == [if rpc.Answered? then Response(Success, rpc.response) else Response(Failed, FailurePayload)])
  {
    responses, thrown := [], [];
    if requester.Some? && validatedKey(requester.value).Some? {
      var req := DecodeRequest(cs, body);
      if req.Ok? {
        var dest := FindDestination(node.peers, validatedKey, req.value.destKey);
        if dest.Some? {
          // AskSrudpCmd.encode(issuer_info, issuer_addr)
          var forward := EncodeInfoAddr(cs, req.value.issuerInfo, req.value.issuerAddr);
          thrown := [Throw(node.peers[dest.value], RequestAskSrudp, forward)];
          if rpc.Answered? {
            responses := [Response(Success, rpc.response)];
            return;
          }
        }
      }
    }
    responses := responses + [Response(Failed, FailurePayload)];
  }
}
