/** SHA-1 as FIPS 180-4 defines it: sections 4.1.1, 4.2.1, 5.1.1, 5.3.1 and 6.1.2. */
module Sha1Spec {
  type word = bv32

  datatype Registers = Registers(a: word, b: word, c: word, d: word, e: word)

  const INITIAL: Registers := Registers(0x67452301, 0xEFCDAB89, 0x98BADCFE, 0x10325476, 0xC3D2E1F0)

  function Rotl(x: word, n: word): word
    requires n < 32
  {
    (x << n) | (x >> (32 - n))
  }

  function Ch(x: word, y: word, z: word): word {
    (x & y) ^ (!x & z)
  }

  function Parity(x: word, y: word, z: word): word {
    x ^ y ^ z
  }

  function Maj(x: word, y: word, z: word): word {
    (x & y) ^ (x & z) ^ (y & z)
  }

  function F(t: nat, x: word, y: word, z: word): word {
    if t < 20 then Ch(x, y, z)
    else if t < 40 then Parity(x, y, z)
    else if t < 60 then Maj(x, y, z)
    else Parity(x, y, z)
  }

  function K(t: nat): word {
    if t < 20 then 0x5A827999
    else if t < 40 then 0x6ED9EBA1
    else if t < 60 then 0x8F1BBCDC
    else 0xCA62C1D6
  }

  /** A word from four octets, most significant first (section 5.2.1). */
  function BigEndianWord(b0: bv8, b1: bv8, b2: bv8, b3: bv8): word {
    (b0 as word << 24) | (b1 as word << 16) | (b2 as word << 8) | (b3 as word)
  }

  type block = b: seq<bv8> | |b| == 64 witness seq(64, _ => 0)

  function MessageWords(b: block): (m: seq<word>)
    ensures |m| == 16
  {
    seq(16, i requires 0 <= i < 16 => BigEndianWord(b[4 * i], b[4 * i + 1], b[4 * i + 2], b[4 * i + 3]))
  }

  function NextWord(w3: word, w8: word, w14: word, w16: word): word {
    Rotl(w3 ^ w8 ^ w14 ^ w16, 1)
  }

  /** The message schedule, one word at a time (step 1 of section 6.1.2). */
  function Extend(w: seq<word>): (w': seq<word>)
    requires 16 <= |w| <= 80
    ensures |w'| == 80 && w <= w'
    decreases 80 - |w|
  {
    var t := |w|;
    if t == 80 then w else Extend(w + [NextWord(w[t - 3], w[t - 8], w[t - 14], w[t - 16])])
  }

  lemma {:induction false} Schedule(w: seq<word>, t: nat)
    requires 16 <= |w| <= t < 80
    ensures var w' := Extend(w); w'[t] == NextWord(w'[t - 3], w'[t - 8], w'[t - 14], w'[t - 16])
    decreases t - |w|
  {
    var n := |w|;
    var longer := w + [NextWord(w[n - 3], w[n - 8], w[n - 14], w[n - 16])];
    assert Extend(w) == Extend(longer);
    if n < t {
      Schedule(longer, t);
    } else {
      PrefixAt(longer, Extend(longer));
    }
  }

  lemma PrefixAt(w: seq<word>, w': seq<word>)
    requires w <= w'
    ensures forall i :: 0 <= i < |w| ==> w'[i] == w[i]
  {
  }

  function Sum(a5: word, f: word, e: word, k: word, w: word): word {
    a5 + f + e + k + w
  }

  /** One round (step 3 of section 6.1.2): the registers are shifted. */
  function Round(r: Registers, t: nat, w: word): Registers {
    Registers(Sum(Rotl(r.a, 5), F(t, r.b, r.c, r.d), r.e, K(t), w), r.a, Rotl(r.b, 30), r.c, r.d)
  }

  function Rounds(r: Registers, w: seq<word>): Registers {
    if w == [] then r else Round(Rounds(r, w[..|w| - 1]), |w| - 1, w[|w| - 1])
  }

  function Add(h: Registers, r: Registers): Registers {
    Registers(h.a + r.a, h.b + r.b, h.c + r.c, h.d + r.d, h.e + r.e)
  }

  /** The hash computation for one block (section 6.1.2). */
  function Compress(h: Registers, b: block): Registers {
    Add(h, Rounds(h, Extend(MessageWords(b))))
  }

  /** The fold of a compression function over the complete blocks at the front of m. */
  function Fold<S>(f: (S, block) -> S, h: S, m: seq<bv8>): S
    decreases |m|
  {
    if |m| < 64 then h else Fold(f, f(h, m[..64]), m[64..])
  }

  function Zeros(n: nat): (z: seq<bv8>)
    ensures |z| == n
  {
    seq(n, _ => 0)
  }

  /** The low n octets of x, most significant first. */
  function BigEndian(x: nat, n: nat): (bs: seq<bv8>)
    ensures |bs| == n
  {
    if n == 0 then [] else BigEndian(x / 256, n - 1) + [(x % 256) as bv8]
  }

  /** How many zero octets follow the octet 0x80. */
  function PadZeros(length: nat): nat {
    (119 - length % 64) % 64
  }

  /** Section 5.1.1. The length is taken mod 2^64; the standard admits only shorter messages. */
  function Pad(m: seq<bv8>): seq<bv8> {
    m + [0x80] + Zeros(PadZeros(|m|)) + BigEndian(8 * |m| % 0x1_0000_0000_0000_0000, 8)
  }

  /** Octet k of a word, the most significant one first. */
  function OctetOf(w: word, k: nat): bv8 {
    if k == 0 then (w >> 24) as bv8
    else if k == 1 then ((w >> 16) & 0xFF) as bv8
    else if k == 2 then ((w >> 8) & 0xFF) as bv8
    else (w & 0xFF) as bv8
  }

  function Octets(h: Registers): seq<bv8> {
    var w := [h.a, h.b, h.c, h.d, h.e];
    seq(20, i requires 0 <= i < 20 => OctetOf(w[i / 4], i % 4))
  }

  function Digest(m: seq<bv8>): seq<bv8> {
    Octets(Fold(Compress, INITIAL, Pad(m)))
  }

  lemma PaddedToBlocks(m: seq<bv8>)
    ensures |Pad(m)| == |m| + 9 + PadZeros(|m|) && |Pad(m)| % 64 == 0 && PadZeros(|m|) < 64
  {
    PadArithmetic(|m|, PadZeros(|m|));
  }

  lemma PadArithmetic(n: nat, z: nat)
    requires z == (119 - n % 64) % 64
    ensures (n + 9 + z) % 64 == 0
  {
    assert n + 9 + z == 64 * (n / 64) + (n % 64 + 9 + z);
    assert n % 64 + 9 + z == 64 || n % 64 + 9 + z == 128;
  }
}
