/** The wire format of one frame: an 8-byte little-endian `u64` holding the
    payload length, followed by the payload bytes. */
module Codec {

  /** One octet on the wire. */
  newtype byte = b: int | 0 <= b < 0x100

  /** Width of the length prefix, `size_of::<u64>()`. */
  const HeaderSize: nat := 8

  /** 2^64: every `u64` length is below it. */
  const U64Bound: nat := 0x1_0000_0000_0000_0000

  function Pow256(k: nat): (r: nat)
    ensures r > 0
  {
    if k == 0 then 1 else 256 * Pow256(k - 1)
  }

  /** The `k` lowest base-256 digits of `n`, least significant first. */
  function LittleEndian(n: nat, k: nat): (r: seq<byte>)
    ensures |r| == k
  {
    if k == 0 then [] else [(n % 256) as byte] + LittleEndian(n / 256, k - 1)
  }

  /** The number whose base-256 digits, least significant first, are `s`. */
  function FromLittleEndian(s: seq<byte>): (r: nat)
    ensures r < Pow256(|s|)
  {
    if s == [] then 0 else s[0] as nat + 256 * FromLittleEndian(s[1..])
  }

  /** `(len as u64).to_le_bytes()`. */
  function EncodeHeader(len: nat): (h: seq<byte>)
    requires len < U64Bound
    ensures |h| == HeaderSize
  {
    LittleEndian(len, HeaderSize)
  }

  /** `u64::from_le_bytes(h)` (the receiver uses `usize`, the same width on a
      64-bit target). */
  function DecodeHeader(h: seq<byte>): (len: nat)
    requires |h| == HeaderSize
    ensures len < U64Bound
  {
    Pow256Eight();
    FromLittleEndian(h)
  }

  /** A payload as it travels: header, then body. */
  function Frame(payload: seq<byte>): (f: seq<byte>)
    requires |payload| < U64Bound
    ensures |f| == HeaderSize + |payload|
  {
    EncodeHeader(|payload|) + payload
  }

  /** Every payload length fits the `u64` header. */
  predicate Framable(ps: seq<seq<byte>>)
  {
    forall i :: 0 <= i < |ps| ==> |ps[i]| < U64Bound
  }

  /** The byte stream produced by sending the payloads `ps` one after another. */
  function Wire(ps: seq<seq<byte>>): (w: seq<byte>)
    requires Framable(ps)
    ensures ps == [] <==> w == []
  {
    if ps == [] then [] else Frame(ps[0]) + Wire(ps[1..])
  }

  lemma Pow256Eight()
    ensures Pow256(HeaderSize) == U64Bound
  {
  }

  lemma {:induction false} FromLittleEndianInverse(n: nat, k: nat)
    requires n < Pow256(k)
    ensures FromLittleEndian(LittleEndian(n, k)) == n
  {
    if k > 0 {
      FromLittleEndianInverse(n / 256, k - 1);
      var s := LittleEndian(n, k);
      assert s[1..] == LittleEndian(n / 256, k - 1);
    }
  }

  lemma {:induction false} LittleEndianInverse(s: seq<byte>)
    ensures LittleEndian(FromLittleEndian(s), |s|) == s
  {
    if s != [] {
      var n := FromLittleEndian(s);
      var t := FromLittleEndian(s[1..]);
      assert n == s[0] as nat + 256 * t;
      assert n % 256 == s[0] as nat && n / 256 == t;
      LittleEndianInverse(s[1..]);
    }
  }

  /** Decoding the header written for a length gives that length back. */
  lemma HeaderRoundTrip(len: nat)
    requires len < U64Bound
    ensures DecodeHeader(EncodeHeader(len)) == len
  {
    Pow256Eight();
    FromLittleEndianInverse(len, HeaderSize);
  }

  /** Every 8-byte header is the encoding of the length it decodes to, so two
      headers that decode alike are equal. */
  lemma HeaderDecodesUniquely(h: seq<byte>)
    requires |h| == HeaderSize
    ensures EncodeHeader(DecodeHeader(h)) == h
  {
    LittleEndianInverse(h);
  }

  /** The first eight bytes of a frame decode to its payload length, and the
      rest is the payload. */
  lemma FrameSplits(payload: seq<byte>)
    requires |payload| < U64Bound
    ensures DecodeHeader(Frame(payload)[..HeaderSize]) == |payload|
    ensures Frame(payload)[HeaderSize..] == payload
  {
    var f := Frame(payload);
    assert f[..HeaderSize] == EncodeHeader(|payload|);
    HeaderRoundTrip(|payload|);
  }

  /** A stream of frames starts with the first frame and continues with the
      stream of the others. */
  lemma WireStartsWithFrame(ps: seq<seq<byte>>)
    requires Framable(ps) && ps != []
    ensures Wire(ps)[..|Frame(ps[0])|] == Frame(ps[0])
    ensures Wire(ps)[|Frame(ps[0])|..] == Wire(ps[1..])
  {
  }
}
