# Rendezvous handlers of p2p-python, modelled in Dafny

This project models `p2p_python/connectionrelay.py`. That file holds the two command handlers
that let an issuer peer reach a destination peer it has no route to, through a mediator both
already trust:

- `MediatorCmd` runs on the mediator. It reads the issuer's identity, the issuer's address and
  the destination's public key. It finds the destination among the peers it knows and forwards the
  issuer's identity and address to it with `throw_command`. It then relays the destination's
  answer back to the issuer unchanged.
- `AskSrudpCmd` runs on the destination. It picks an own address of the issuer's IP version and
  starts a secure reliable UDP connect toward the issuer. It acknowledges with its own identity
  and the chosen address. Once the connect completes, it validates the new socket, then either
  admits it to the peer registry or closes it.

Modules:

- `Wrappers`: `Option`, `Result` and `FirstIndex`, the first-match scan that both for/else loops
  perform.
- `Bytes`: bytes, big-endian integers (`int.to_bytes(4, "big")` and `int.from_bytes(b, "big")`)
  and `BytesIO.read`, which reads at most `n` bytes and comes back short at the end of the buffer.
- `Identity`: `PeerInfo`, `FormalAddr`, `Host` and `VerifyingKey`, with their codecs.
  - The codecs are function-valued parameters.
  - `SelfDelimiting`, `Canonical` and `KeyRoundTrip` state what the framing needs of them.
  - Every lemma requires these as hypotheses. None of them is assumed.
- `Framing`: the cursor-driven `PeerInfo ‖ FormalAddr` framing and the full-consumption check.
  `MediatorCmd.decode` and `AskSrudpCmd.decode` are the same code; both are `DecodeInfoAddr`.
  `AskSrudpCmd.encode` is `EncodeInfoAddr`.
- `P2P`: the part of the node context that the handlers touch.
  - `Node` holds `peers` and the socket pool; `Peer` holds its `socks`; `Sock` holds the
    VALIDATED flag and the closed state.
  - It also defines the responses (`res_fnc` calls) and the `throw_command` calls.
- `MediatorCmd`: the mediation request codec, the destination scan and the handler.
- `AskSrudpCmd`: the handler's inline decode, the address choice, the dial and the handler.

Each handler is a sequential method. The outcomes it cannot decide are inputs:

- the RPC result;
- whether socket creation fails;
- how the connect, wrapping and handshake end;
- whether VALIDATED ends up set;
- the random port.

Each `res_fnc` call becomes an element of the returned `responses` sequence, in order.

In the following places the code does something other than one might expect of this protocol.
The model follows the code, and a lemma or an `ensures` exhibits each case:

- **Two responses.** One might expect exactly one response per request. `AskSrudpCmd.thread`
  sends its success acknowledgement at line 148. Any later fault then adds a failure response at
  line 189. `AskSrudpCmd.Thread` states this: after the acknowledgement, the responses are
  `[ack, failure]` unless the handshake finished.
- **Trailing bytes accepted.** One might expect every decode to check that the whole buffer was
  consumed, as `MediatorCmd.decode` and `AskSrudpCmd.decode` do. The decode inlined in `AskSrudpCmd.thread` (lines 121-123) has no such check, so an
  encoded request followed by extra bytes is accepted (`DecodeRequestIgnoresTrailing`).
- **Loopback port may repeat.** One might expect the port drawn for a loopback issuer to differ
  from the issuer's port. Line 129 does not ensure this (`LoopbackPortMayEqualIssuerPort`).
- **New peer without its socket.** One might expect a validated socket to end up attached to a
  `Peer`. When no peer has the issuer's key, line 171 appends `Peer(issuer_info)` but does not add
  the socket to it. `AskSrudpCmd.Thread` states that the new peer's `socks` is empty.
- **Length field not checked against the bytes.** `MediatorCmd.thread` reads the key with
  `io.read(length)`, which stops at the end of the buffer. The consumption check therefore does
  not reject a length field that claims more bytes than follow. Only `VerifyingKey.from_string`
  can reject them (`DecodeRequestAccepts`, `DecodeRequestAcceptsCutLength`, `DecodeRequestShape`).

## Model

| member | source | states |
|---|---|---|
| `Wrappers.FirstIndex` | p2p_python/connectionrelay.py:62-67 | the for/else scan finds an index whose element matches, with no match before it; there is no result exactly when nothing matches |
| `Bytes.FromBigEndian` | p2p_python/connectionrelay.py:57 | a big-endian field of k bytes reads as a number below 256^k |
| `Bytes.ToBigEndian` | p2p_python/connectionrelay.py:33 | the big-endian form of n has exactly `width` bytes and reads back as n |
| `Bytes.ToFromBigEndian` | p2p_python/connectionrelay.py:57 | every byte field is the big-endian form of the number it reads as, so the field and the number determine each other |
| `Bytes.Read` | p2p_python/connectionrelay.py:57-58 | `io.read(n)` returns the bytes at the cursor and advances past them; it returns fewer than n bytes only at the end of the buffer |
| `Framing.ReadValueEncoded` | p2p_python/connectionrelay.py:39 | a self-delimiting decoder at the cursor reads back the encoded value and moves past exactly its encoding |
| `Framing.ReadInfoAddrEncoded` | p2p_python/connectionrelay.py:122-123 | a buffer that starts with an encoded identity and address reads back as them, whatever follows, with the cursor just after both |
| `Framing.DecodeInfoAddrRoundTrip` | p2p_python/connectionrelay.py:100-111 | `AskSrudpCmd.decode(AskSrudpCmd.encode(info, addr))` returns `(info, addr)` |
| `Framing.DecodeInfoAddrRejectsTrailing` | p2p_python/connectionrelay.py:37-42 | the full-consumption assertion rejects an encoding followed by one or more extra bytes |
| `Framing.DecodeInfoAddrOnlyEncodings` | p2p_python/connectionrelay.py:107-111 | with canonical value decoders, a buffer is accepted only if it is exactly the encoding of the result (the converse of the round trip) |
| `MediatorCmd.Encode` | p2p_python/connectionrelay.py:28-35 | the request is the identity and address encoding, then a 4-byte field that reads as the key length, then the key bytes; encoding fails exactly when the key has 2^32 bytes or more |
| `MediatorCmd.DecodeRequestAccepts` | p2p_python/connectionrelay.py:54-59 | the handler accepts the identity and address, then any 4-byte length at least the key-byte count, then key bytes `from_string` accepts |
| `MediatorCmd.DecodeRequestAcceptsCutLength` | p2p_python/connectionrelay.py:54-59 | a body that ends inside the length field, after the identity and address, is accepted whenever `from_string` accepts no bytes: the short field reads as some length and the key read returns nothing |
| `MediatorCmd.RequestRoundTrip` | p2p_python/connectionrelay.py:28-59 | decoding what `MediatorCmd.encode` writes, as `thread` does, returns the same info, addr and key with the buffer fully consumed |
| `MediatorCmd.RequestRejectsTrailing` | p2p_python/connectionrelay.py:57-59 | an encoded request followed by extra bytes fails the consumption assertion |
| `MediatorCmd.DecodeRequestShape` | p2p_python/connectionrelay.py:54-59 | every accepted request starts with the identity and address encoding. Its length field is complete and covers all remaining bytes, or it is cut short and the key decodes from no bytes. Together with `DecodeRequestAccepts` (complete field) and `DecodeRequestAcceptsCutLength` (cut-short field) this decides acceptance in both directions |
| `MediatorCmd.FindDestination` | p2p_python/connectionrelay.py:61-67 | the scan returns the first peer whose validated key is present and equals the requested key, and nothing when no peer qualifies |
| `MediatorCmd.Thread` | p2p_python/connectionrelay.py:45-87 | exactly one response on every path. `throw_command` is called once, with the first matching peer and `AskSrudpCmd.encode(info, addr)`, when the requester has a validated key, the body decodes and a destination exists; otherwise never. The response is success with the RPC bytes unchanged, or failure with `b"mediator_thread() failed"` |
| `AskSrudpCmd.DecodeRequestIgnoresTrailing` | p2p_python/connectionrelay.py:120-123 | the handler's inline decode returns the encoded identity and address whatever bytes follow them |
| `AskSrudpCmd.ResponseAddr` | p2p_python/connectionrelay.py:125-134 | the chosen host is that of the first own address with the issuer's IP version. The port is the issuer's for a non-loopback issuer, or the drawn port in [1024, 65535] for a loopback one. There is no address exactly when no own address has that version |
| `AskSrudpCmd.SelectLocalAddr` | p2p_python/connectionrelay.py:126-134 | the for/else loop over `my_info.addresses` returns the address `ResponseAddr` specifies |
| `AskSrudpCmd.LoopbackPortMayEqualIssuerPort` | p2p_python/connectionrelay.py:128-129 | for a loopback issuer, the drawn port can equal the issuer's own port |
| `AskSrudpCmd.DialMatchesResponseAddr` | p2p_python/connectionrelay.py:136-142 | the socket family is IPv4 exactly when the issuer's version, and also the chosen host's, is 4. The target is the issuer's address. An explicit local port is passed exactly for a loopback issuer, and it is the announced port |
| `AskSrudpCmd.Thread` | p2p_python/connectionrelay.py:114-189 | a failure before the acknowledgement gives one failure response, no dial, and no change to `peers` or the pool. Otherwise the dial is made and the acknowledgement (`my_info ‖ dest_addr`) is sent first; a fault after it adds a second, failure response. The socket enters the pool once wrapped, and its VALIDATED flag is whatever the handshake left, also when `measure_delay_time` then raises (the socket then stays pooled, open and attached to no peer). A validated socket is appended to the first peer with the issuer's key, or one `Peer(issuer_info)` with no sockets is appended to `peers`; an unvalidated socket is closed and `peers` is unchanged. No other peer's `socks` changes. Public keys that are unique across `peers` stay unique |
| `P2P.Sock.Close` | p2p_python/connectionrelay.py:176 | closing marks the socket closed and leaves its VALIDATED flag as it was |
| `P2P.Peer.constructor` | p2p_python/connectionrelay.py:171 | `Peer(issuer_info)` carries the issuer's identity and has no sockets |

## Left out

- The secure reliable UDP transport (`SecureReliableSocket`, `connect`, `settimeout`) and the
  internals of `Sock`. `validate_the_other` and `measure_delay_time` are not modelled. Their
  outcomes are inputs: a raised fault, or whether VALIDATED ended up set.
- `executor.submit`, `fut.result(20.0)` and the `.wait(20.0)` timeouts. Each wait is reduced to
  the input saying whether it succeeded or faulted; threads and wall-clock time are not modelled.
- Concurrency between handler instances on the shared `peers` list is not modelled; each handler
  runs alone.
- `p2p.throw_command`. Its response bytes, or a raised fault, are an input (`RpcOutcome`).
- The byte formats of `PeerInfo`, `FormalAddr` and `VerifyingKey`. These types are defined
  outside this file and in the ecdsa library, so their codecs are parameters. The lemmas require
  their round-trip properties as hypotheses.
- `p2p.get_peer_by_sock` and `Peer.get_validated_key`. `peer.py` and `peer2peer.py` are not part
  of this model, so their answers are inputs: `requester`, and the function `validatedKey`.
- `p2p.get_peer_by_pubkey` is modelled as the first peer whose identity carries the key
  (`P2P.PeerByKey`). This is an assumption about `peer2peer.py`, which is not part of this model.
- `random.randint(1024, 65535)` is the input `randomPort`, typed to that range.
- The `Sock` constructor's receive callback, socket type and secret key are not modelled. So is
  `p2p.pool.add_sock` beyond appending to the pool.
- Logging, and the distinction between `AssertionError`, `ConnectionError` and other exceptions.
  These change only the log level; every kind leads to the same failure response.
