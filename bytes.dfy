/** Fixed-width unsigned integers and the byte orders used on the wire.

    The C++ code stores multi-byte fields with `nativeToBigEndian` through a
    `reinterpret_cast`, reads them back with `readUnalignBigEndian`, and
    decodes the AutoIP telegram id with explicit shifts (little-endian).
    Here each of these is an explicit encoder/decoder over byte sequences,
    with the round trips proved. */
module Bytes {

  newtype u8 = x: int | 0 <= x < 0x100
  newtype u16 = x: int | 0 <= x < 0x1_0000
  newtype u32 = x: int | 0 <= x < 0x1_0000_0000

  function Min(a: nat, b: nat): (m: nat)
    ensures m <= a && m <= b && (m == a || m == b)
  {
    if a <= b then a else b
  }

  /** `static_cast<uint32_t>(n)`: reduction modulo 2^32. */
  function Wrap32(n: int): (v: u32)
    ensures 0 <= n < 0x1_0000_0000 ==> v as int == n
    ensures (v as int - n) % 0x1_0000_0000 == 0
  {
    (n % 0x1_0000_0000) as u32
  }

  /** Replaces `|bytes|` bytes of `buf` starting at `at`: the store
      `*reinterpret_cast<T*>(&buf[at]) = ...` of the source. */
  function Overwrite(buf: seq<u8>, at: nat, bytes: seq<u8>): (r: seq<u8>)
    requires at + |bytes| <= |buf|
    ensures |r| == |buf|
    ensures r[..at] == buf[..at]
    ensures r[at..at + |bytes|] == bytes
    ensures r[at + |bytes|..] == buf[at + |bytes|..]
  {
    buf[..at] + bytes + buf[at + |bytes|..]
  }

  // ---------------------------------------------------------------------
  // Big-endian (network order)

  function EncodeBE16(v: u16): (bs: seq<u8>)
    ensures |bs| == 2
  {
    [(v / 0x100) as u8, (v % 0x100) as u8]
  }

  function DecodeBE16(bs: seq<u8>): (v: u16)
    requires |bs| == 2
  {
    (bs[0] as int * 0x100 + bs[1] as int) as u16
  }

  function EncodeBE32(v: u32): (bs: seq<u8>)
    ensures |bs| == 4
  {
    EncodeBE16((v / 0x1_0000) as u16) + EncodeBE16((v % 0x1_0000) as u16)
  }

  function DecodeBE32(bs: seq<u8>): (v: u32)
    requires |bs| == 4
  {
    (DecodeBE16(bs[..2]) as int * 0x1_0000 + DecodeBE16(bs[2..]) as int) as u32
  }

  lemma BE16RoundTrip(v: u16)
    ensures DecodeBE16(EncodeBE16(v)) == v
  {
  }

  lemma BE16Inverse(bs: seq<u8>)
    requires |bs| == 2
    ensures EncodeBE16(DecodeBE16(bs)) == bs
  {
  }

  lemma BE32RoundTrip(v: u32)
    ensures DecodeBE32(EncodeBE32(v)) == v
  {
    var hi, lo := (v / 0x1_0000) as u16, (v % 0x1_0000) as u16;
    var bs := EncodeBE32(v);
    assert bs[..2] == EncodeBE16(hi) && bs[2..] == EncodeBE16(lo);
    BE16RoundTrip(hi);
    BE16RoundTrip(lo);
  }

  lemma BE32Inverse(bs: seq<u8>)
    requires |bs| == 4
    ensures EncodeBE32(DecodeBE32(bs)) == bs
  {
    var hi, lo := DecodeBE16(bs[..2]), DecodeBE16(bs[2..]);
    var v := DecodeBE32(bs);
    assert (v / 0x1_0000) as u16 == hi && (v % 0x1_0000) as u16 == lo;
    BE16Inverse(bs[..2]);
    BE16Inverse(bs[2..]);
    assert bs == bs[..2] + bs[2..];
  }

  /** The most significant byte comes first. */
  lemma BE32Weights(v: u32)
    ensures var bs := EncodeBE32(v);
      v as int == bs[0] as int * 0x100_0000 + bs[1] as int * 0x1_0000 + bs[2] as int * 0x100 + bs[3] as int
  {
    BE32RoundTrip(v);
  }

  // ---------------------------------------------------------------------
  // Little-endian: the AutoIP telegram id is decoded as
  // `b[0] | b[1] << 8 | b[2] << 16 | b[3] << 24`.

  function EncodeLE32(v: u32): (bs: seq<u8>)
    ensures |bs| == 4
  {
    var be := EncodeBE32(v);
    [be[3], be[2], be[1], be[0]]
  }

  function DecodeLE32(bs: seq<u8>): (v: u32)
    requires |bs| == 4
  {
    DecodeBE32([bs[3], bs[2], bs[1], bs[0]])
  }

  lemma LE32RoundTrip(v: u32)
    ensures DecodeLE32(EncodeLE32(v)) == v
  {
    var be := EncodeBE32(v);
    assert [be[3], be[2], be[1], be[0]][3] == be[0];
    assert [EncodeLE32(v)[3], EncodeLE32(v)[2], EncodeLE32(v)[1], EncodeLE32(v)[0]] == be;
    BE32RoundTrip(v);
  }

  /** The least significant byte comes first. */
  lemma LE32Weights(bs: seq<u8>)
    requires |bs| == 4
    ensures DecodeLE32(bs) as int == bs[0] as int + bs[1] as int * 0x100 + bs[2] as int * 0x1_0000 + bs[3] as int * 0x100_0000
  {
  }
}
