/**
 * The identity and address value types carried by the rendezvous messages, and the codecs that
 * serialise them. `PeerInfo.to_bytes/from_bytes`, `FormalAddr.to_bytes/from_bytes` and
 * `VerifyingKey.to_string/from_string` live outside this model: they are parameters here, and
 * the properties the framing relies on are stated as predicates over them.
 */
module Identity {
  import opened Wrappers
  import opened Bytes

  datatype IpVersion = V4 | V6

  /** An IP address: its version, whether it is a loopback address, and its octets. */
  datatype Host = Host(version: IpVersion, isLoopback: bool, octets: seq<byte>)

  type Port = p: int | 0 <= p < 65536

  /** The range `random.randint(1024, 65535)` draws from. */
  type EphemeralPort = p: int | 1024 <= p <= 65535 witness 1024

  datatype FormalAddr = FormalAddr(host: Host, port: Port)

  /** A point on the node-key curve. */
  datatype VerifyingKey = VerifyingKey(x: nat, y: nat)

  datatype PeerInfo = PeerInfo(publicKey: VerifyingKey, addresses: seq<FormalAddr>)

  /** A cursor codec: `decode` reads from the start of a buffer and reports how many bytes it consumed. */
  datatype Codec<!T> = Codec(encode: T -> seq<byte>, decode: seq<byte> -> Option<(T, nat)>)

  /** `VerifyingKey.to_string` and the partial `VerifyingKey.from_string`. */
  datatype KeyCodec = KeyCodec(toString: VerifyingKey -> seq<byte>, fromString: seq<byte> -> Option<VerifyingKey>)

  datatype Codecs = Codecs(info: Codec<PeerInfo>, addr: Codec<FormalAddr>, key: KeyCodec)

  /** Decoding any buffer that starts with the encoding of `x` yields `x` and consumes exactly that encoding. */
  ghost predicate SelfDelimiting<T(!new)>(c: Codec<T>)
  {
    forall x: T, s: seq<byte> :: c.encode(x) <= s ==> c.decode(s) == Some((x, |c.encode(x)|))
  }

  /** The decoder accepts nothing but a prefix its encoder produces. */
  ghost predicate Canonical<T(!new)>(c: Codec<T>)
  {
    forall s: seq<byte> :: c.decode(s).Some? ==>
      var (x, n) := c.decode(s).value; n <= |s| && s[..n] == c.encode(x)
  }

  ghost predicate KeyRoundTrip(k: KeyCodec)
  {
    forall key: VerifyingKey :: k.fromString(k.toString(key)) == Some(key)
  }

  /** What every round-trip lemma of the framing needs of the external codecs. */
  ghost predicate Sound(cs: Codecs)
  {
    SelfDelimiting(cs.info) && SelfDelimiting(cs.addr) && KeyRoundTrip(cs.key)
  }
}
