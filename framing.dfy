/**
 * The cursor-driven framing shared by both commands: a `PeerInfo` followed by a `FormalAddr`,
 * written to and read from one buffer, and the full-consumption check
 * `len(io.getbuffer()) == io.tell()`.
 */
module Framing {
  import opened Wrappers
  import opened Bytes
  import opened Identity

  /** Why a buffer was refused: a value decoder rejected it, or bytes were left over. */
  datatype DecodeError = Malformed | NotConsumed

  /**
   * `X.from_bytes(io)` at cursor `pos`: the value and the advanced cursor. A decoder cannot move
   * the cursor past the end of the buffer, so a claim to have consumed more is a rejection.
   */
  function ReadValue<T>(c: Codec<T>, buf: seq<byte>, pos: nat): (r: Option<(T, nat)>)
    requires pos <= |buf|
    ensures r.Some? ==> pos <= r.value.1 <= |buf|
  {
    match c.decode(buf[pos..])
    case None => None
    case Some((x, n)) => if pos + n <= |buf| then Some((x, pos + n)) else None
  }

  lemma ReadValueEncoded<T(!new)>(c: Codec<T>, x: T, buf: seq<byte>, pos: nat)
    requires SelfDelimiting(c)
    requires pos <= |buf| && c.encode(x) <= buf[pos..]
    ensures ReadValue(c, buf, pos) == Some((x, pos + |c.encode(x)|))
  {
  }

  /** `info.to_bytes(io); addr.to_bytes(io); io.getvalue()` on a fresh `BytesIO`. */
  function EncodeInfoAddr(cs: Codecs, info: PeerInfo, addr: FormalAddr): seq<byte>
  {
    cs.info.encode(info) + cs.addr.encode(addr)
  }

  /** `PeerInfo.from_bytes(io)` then `FormalAddr.from_bytes(io)`, from cursor `pos`. */
  function ReadInfoAddr(cs: Codecs, buf: seq<byte>, pos: nat): (r: Option<(PeerInfo, FormalAddr, nat)>)
    requires pos <= |buf|
    ensures r.Some? ==> pos <= r.value.2 <= |buf|
  {
    match ReadValue(cs.info, buf, pos)
    case None => None
    case Some((info, p1)) =>
      match ReadValue(cs.addr, buf, p1)
      case None => None
      case Some((addr, p2)) => Some((info, addr, p2))
  }

  /**
   * `MediatorCmd.decode` and `AskSrudpCmd.decode` (the two are the same code): read a `PeerInfo`
   * and a `FormalAddr`, then insist that the whole buffer was consumed.
   */
  function DecodeInfoAddr(cs: Codecs, body: seq<byte>): Result<(PeerInfo, FormalAddr), DecodeError>
  {
    match ReadInfoAddr(cs, body, 0)
    case None => Err(Malformed)
    case Some((info, addr, pos)) => if pos == |body| then Ok((info, addr)) else Err(NotConsumed)
  }

  /** A buffer that starts with an encoded `PeerInfo` and `FormalAddr` reads back as them, cursor after both. */
  lemma ReadInfoAddrEncoded(cs: Codecs, info: PeerInfo, addr: FormalAddr, buf: seq<byte>)
    requires SelfDelimiting(cs.info) && SelfDelimiting(cs.addr)
    requires EncodeInfoAddr(cs, info, addr) <= buf
    ensures ReadInfoAddr(cs, buf, 0) == Some((info, addr, |EncodeInfoAddr(cs, info, addr)|))
  {
    var ei, ea := cs.info.encode(info), cs.addr.encode(addr);
    assert ei <= buf[0..] by { assert buf[0..] == buf; }
    ReadValueEncoded(cs.info, info, buf, 0);
    assert ea <= buf[|ei|..] by {
      assert forall k :: 0 <= k < |ea| ==> buf[|ei|..][k] == (ei + ea)[|ei| + k];
    }
    ReadValueEncoded(cs.addr, addr, buf, |ei|);
  }

  /** Decoding the bytes `AskSrudpCmd.encode` writes gives back the same identity and address. */
  lemma DecodeInfoAddrRoundTrip(cs: Codecs, info: PeerInfo, addr: FormalAddr)
    requires SelfDelimiting(cs.info) && SelfDelimiting(cs.addr)
    ensures DecodeInfoAddr(cs, EncodeInfoAddr(cs, info, addr)) == Ok((info, addr))
  {
    ReadInfoAddrEncoded(cs, info, addr, EncodeInfoAddr(cs, info, addr));
  }

  /** The full-consumption assertion refuses an encoding followed by any trailing bytes. */
  lemma DecodeInfoAddrRejectsTrailing(cs: Codecs, info: PeerInfo, addr: FormalAddr, extra: seq<byte>)
    requires SelfDelimiting(cs.info) && SelfDelimiting(cs.addr)
    requires extra != []
    ensures DecodeInfoAddr(cs, EncodeInfoAddr(cs, info, addr) + extra) == Err(NotConsumed)
  {
    ReadInfoAddrEncoded(cs, info, addr, EncodeInfoAddr(cs, info, addr) + extra);
  }

  /** With canonical value decoders, a buffer is accepted only if it is exactly an encoding. */
  lemma DecodeInfoAddrOnlyEncodings(cs: Codecs, body: seq<byte>)
    requires Canonical(cs.info) && Canonical(cs.addr)
    ensures DecodeInfoAddr(cs, body).Ok? ==>
      var (info, addr) := DecodeInfoAddr(cs, body).value; body == EncodeInfoAddr(cs, info, addr)
  {
    if DecodeInfoAddr(cs, body).Ok? {
      var (info, n1) := cs.info.decode(body[0..]).value;
      assert body[0..] == body;
      var (addr, n2) := cs.addr.decode(body[n1..]).value;
      assert body[n1..][..n2] == body[n1..];
      assert body == body[..n1] + body[n1..];
    }
  }
}
