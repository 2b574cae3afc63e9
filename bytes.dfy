/** Bytes, Python's `int.to_bytes(w, "big")` / `int.from_bytes(b, "big")`, and `BytesIO.read`. */
module Bytes {

  type byte = x: int | 0 <= x < 256

  function Pow256(k: nat): (r: nat)
    ensures r > 0
  {
    if k == 0 then 1 else 256 * Pow256(k - 1)
  }

  lemma Pow256Four()
    ensures Pow256(4) == 0x1_0000_0000
  {
    assert Pow256(2) == 65536;
  }

  /** `int.from_bytes(s, "big")`: also defined on fewer bytes than a field holds, as a short read gives. */
  function FromBigEndian(s: seq<byte>): (n: nat)
    ensures n < Pow256(|s|)
  {
    if s == [] then 0
    else
      var high := FromBigEndian(s[..|s| - 1]);
      assert high * 256 <= (Pow256(|s| - 1) - 1) * 256;
      high * 256 + s[|s| - 1]
  }

  /** `n.to_bytes(width, "big")`; Python raises OverflowError when `n` does not fit, so callers check first. */
  function ToBigEndian(n: nat, width: nat): (s: seq<byte>)
    requires n < Pow256(width)
    ensures |s| == width
    ensures FromBigEndian(s) == n
  {
    if width == 0 then []
    else
      var t := ToBigEndian(n / 256, width - 1);
      assert (t + [n % 256])[..width - 1] == t;
      t + [n % 256]
  }

  /** Every `width`-byte field is the big-endian form of the number it reads as. */
  lemma {:induction false} ToFromBigEndian(s: seq<byte>)
    ensures ToBigEndian(FromBigEndian(s), |s|) == s
  {
    if s != [] {
      var t := s[..|s| - 1];
      ToFromBigEndian(t);
      assert s == t + [s[|s| - 1]];
    }
  }

  /** `BytesIO.read(n)` at cursor `pos`: at most `n` bytes, fewer only when the buffer ends first. */
  function Read(buf: seq<byte>, pos: nat, n: nat): (r: (seq<byte>, nat))
    requires pos <= |buf|
    ensures pos <= r.1 <= |buf| && r.0 == buf[pos..r.1]
    ensures |r.0| == n || r.1 == |buf|
    ensures |r.0| <= n
  {
    var end := if pos + n <= |buf| then pos + n else |buf|;
    (buf[pos..end], end)
  }
}
