/**
 * The slice of the node context (`Peer2Peer`) the two handlers touch: the known peers, each with
 * its sockets, the socket pool, the command identifiers and the responses a handler sends.
 */
module P2P {
  import opened Wrappers
  import opened Bytes
  import opened Identity

  datatype InnerCmd = RequestMediator | RequestAskSrudp

  /** `_SUCCESS` / `_FAILED`. */
  datatype Status = Success | Failed

  /** One call of the handler's `res_fnc`. */
  datatype Response = Response(status: Status, payload: seq<byte>)

  /** One call of `p2p.throw_command(peer, cmd, body)`. */
  datatype Throw = Throw(dest: Peer, cmd: InnerCmd, body: seq<byte>)

  /** What `throw_command` gives back: the remote response bytes, or a raised fault. */
  datatype RpcOutcome = Answered(response: seq<byte>) | RpcFault

  /** `Sock`: one transport connection, the key its far end claims, and the flags this model tracks. */
  class Sock {
    const remoteKey: VerifyingKey
    /** The `SockControl.VALIDATED` bit. */
    var validated: bool
    var closed: bool

    constructor (remoteKey: VerifyingKey)
      ensures this.remoteKey == remoteKey && !validated && !closed
    {
      this.remoteKey := remoteKey;
      validated := false;
      closed := false;
    }

    method Close()
      modifies this
      ensures closed && validated == old(validated)
    {
      closed := true;
    }
  }

  /** `Peer`: an identity and the sockets open to it. */
  class Peer {
    const info: PeerInfo
    var socks: seq<Sock>

    constructor (info: PeerInfo)
      ensures this.info == info && socks == []
    {
      this.info := info;
      socks := [];
    }
  }

  /** `Peer2Peer`: this node's identity, the list `peers` and the socket pool. */
  class Node {
    const myInfo: PeerInfo
    var peers: seq<Peer>
    var pool: seq<Sock>

    constructor (myInfo: PeerInfo)
      ensures this.myInfo == myInfo && peers == [] && pool == []
    {
      this.myInfo := myInfo;
      peers := [];
      pool := [];
    }
  }

  function HasKey(key: VerifyingKey): Peer -> bool
  {
    (p: Peer) => p.info.publicKey == key
  }

  /** `p2p.get_peer_by_pubkey`: the first known peer whose identity carries `key`. */
  function PeerByKey(peers: seq<Peer>, key: VerifyingKey): Option<nat>
  {
    FirstIndex(peers, HasKey(key))
  }

  /** No two peer records share a public key. */
  ghost predicate UniqueKeys(peers: seq<Peer>)
  {
    forall i, j :: 0 <= i < j < |peers| ==> peers[i].info.publicKey != peers[j].info.publicKey
  }
}
