/** Octets as the integers 0..255. Masks and shifts of the C code are written with `/` and `%`. */
module Bytes {
  type byte = b: int | 0 <= b < 256
  type word16 = w: int | 0 <= w < 0x1_0000

  /** Network byte order, as htons lays a 16-bit value out in memory. */
  function BigEndian16(w: word16): (bs: seq<byte>)
    ensures |bs| == 2 && ReadBigEndian16(bs) == w
  {
    [w / 256, w % 256]
  }

  /** Numbers compare as their octets do from the first one on. */
  lemma NetworkOrder(v: word16, w: word16)
    ensures
      var a, b := BigEndian16(v), BigEndian16(w);
      v < w <==> a[0] < b[0] || (a[0] == b[0] && a[1] < b[1])
  {
  }

  /** ntohs of the first two octets. */
  function ReadBigEndian16(bs: seq<byte>): word16
    requires 2 <= |bs|
  {
    (bs[0] as int) * 256 + bs[1]
  }
}
