/** SHA1_Init, SHA1_Update and SHA1_Final of src/tls.c on a context that is updated in place. */
module Sha1Stream {
  import opened Powers
  import opened Wrappers
  import opened Sha1Spec
  import opened Sha1

  // ---------------------------------------------------------------- the fold over blocks

  lemma {:induction false} FoldAppend<S>(f: (S, block) -> S, h: S, m: seq<bv8>, b: block)
    requires |m| % 64 == 0
    ensures Fold(f, h, m + b) == f(Fold(f, h, m), b)
    decreases |m|
  {
    if |m| == 0 {
      assert (m + b)[..64] == b && (m + b)[64..] == [];
    } else {
      assert (m + b)[..64] == m[..64] && (m + b)[64..] == m[64..] + b;
      FoldAppend(f, f(h, m[..64]), m[64..], b);
    }
  }

  lemma {:induction false} FoldTail<S>(f: (S, block) -> S, h: S, m: seq<bv8>, tail: seq<bv8>)
    requires |m| % 64 == 0 && |tail| < 64
    ensures Fold(f, h, m + tail) == Fold(f, h, m)
    decreases |m|
  {
    if |m| > 0 {
      assert (m + tail)[..64] == m[..64] && (m + tail)[64..] == m[64..] + tail;
      FoldTail(f, f(h, m[..64]), m[64..], tail);
    }
  }

  /** The octets of m behind its last complete block. */
  function Tail(m: seq<bv8>): (r: seq<bv8>)
    ensures |r| == |m| % 64
  {
    seq(|m| % 64, i requires 0 <= i < |m| % 64 => m[|m| - |m| % 64 + i])
  }

  function Front(m: seq<bv8>): (r: seq<bv8>)
    ensures |r| % 64 == 0 && r + Tail(m) == m
  {
    m[..|m| - |m| % 64]
  }

  lemma FoldFront<S>(f: (S, block) -> S, h: S, m: seq<bv8>)
    ensures Fold(f, h, m) == Fold(f, h, Front(m))
  {
    FoldTail(f, h, Front(m), Tail(m));
  }

  /** What was in the buffer and the octets that fill it up are one block of the message. */
  lemma BlockCompleted<S>(f: (S, block) -> S, h: S, m: seq<bv8>, head: seq<bv8>)
    requires |m| % 64 + |head| == 64
    ensures Fold(f, h, m + head) == f(Fold(f, h, m), Tail(m) + head)
  {
    var b := Tail(m) + head;
    Associative(Front(m), Tail(m), head);
    FoldFront(f, h, m);
    FoldAppend(f, h, Front(m), b);
  }

  lemma FillsUp(n: nat, i: nat)
    requires i == 64 - n % 64
    ensures (n + i) % 64 == 0
  {
  }

  /** The rest of the data stays in the buffer, behind the old tail if no block was completed. */
  lemma TailKept<S>(f: (S, block) -> S, h: S, m: seq<bv8>, data: seq<bv8>, i: nat)
    requires i <= |data|
    requires if i == 0 then |m| % 64 + |data| < 64 else (|m| + i) % 64 == 0 && |data| < i + 64
    ensures Tail(m + data) == (if i == 0 then Tail(m) else []) + data[i..]
    ensures Fold(f, h, m + data) == if i == 0 then Fold(f, h, m) else Fold(f, h, m + data[..i])
  {
    if i == 0 {
      Associative(Front(m), Tail(m), data);
      assert (|m| + |data|) % 64 == |m| % 64 + |data|;
      FoldFront(f, h, m);
      FoldTail(f, h, Front(m), Tail(m) + data);
      assert data[0..] == data;
    } else {
      assert (|m| + |data|) % 64 == |data| - i;
      FoldTail(f, h, m + data[..i], data[i..]);
      assert m + data[..i] + data[i..] == m + data;
    }
  }

  // ---------------------------------------------------------------- the counter

  const TWO32 := 0x1_0000_0000
  const TWO64 := 0x1_0000_0000_0000_0000

  /** The two words hold the number of bits of n octets, mod 2^64. */
  predicate Counts(low: nat, high: nat, n: nat) {
    low < TWO32 && high < TWO32 && high * TWO32 + low == 8 * n % TWO64
  }

  /** The three lines that advance the counter: low word, carry, and the high bits of the length. */
  function AddLow(low: nat, len: nat): nat {
    (low + len * 8 % TWO32) % TWO32
  }

  function AddHigh(low: nat, high: nat, len: nat): nat {
    ((if AddLow(low, len) < low then (high + 1) % TWO32 else high) + len / 0x2000_0000) % TWO32
  }

  lemma CounterAdvances(low: nat, high: nat, n: nat, len: nat)
    requires Counts(low, high, n) && len < TWO32
    ensures Counts(AddLow(low, len), AddHigh(low, high, len), n + len)
  {
    var wrap := CounterSum(low, high, len);
    var counted := AddHigh(low, high, len) * TWO32 + AddLow(low, len);
    var q := 8 * n / TWO64;
    assert 8 * n == q * TWO64 + (high * TWO32 + low);
    RemainderIs(8 * (n + len), q + wrap, counted);
  }

  lemma OnceAround(x: nat)
    requires x < 2 * TWO32
    ensures x % TWO32 == if x >= TWO32 then x - TWO32 else x
  {
  }

  /** The carry the comparison finds is that of the low words. */
  lemma LowSum(low: nat, len: nat) returns (carry: nat)
    requires low < TWO32
    ensures carry <= 1 && AddLow(low, len) + carry * TWO32 == low + len * 8 % TWO32
    ensures AddLow(low, len) < low <==> carry == 1
  {
    OnceAround(low + len * 8 % TWO32);
    carry := if low + len * 8 % TWO32 >= TWO32 then 1 else 0;
  }

  lemma HighSum(high: nat, carry: nat, h: nat) returns (wrap: nat)
    requires high < TWO32 && carry <= 1 && h < 8
    ensures ((if carry == 1 then (high + 1) % TWO32 else high) + h) % TWO32 + wrap * TWO32 == high + carry + h
  {
    OnceAround(high + carry);
    OnceAround((high + carry) % TWO32 + h);
    wrap := if high + carry + h >= TWO32 then 1 else 0;
  }

  /** Nothing of 8 * len is lost but multiples of 2^64. */
  lemma CounterSum(low: nat, high: nat, len: nat) returns (wrap: nat)
    requires low < TWO32 && high < TWO32 && len < TWO32
    ensures AddHigh(low, high, len) * TWO32 + AddLow(low, len) + wrap * TWO64 == high * TWO32 + low + 8 * len
  {
    var l, h := len * 8 % TWO32, len / 0x2000_0000;
    assert len * 8 == h * TWO32 + l;
    var carry := LowSum(low, len);
    wrap := HighSum(high, carry, h);
  }

  lemma RemainderIs(x: nat, q: nat, r: nat)
    requires x == q * TWO64 + r && r < TWO64
    ensures x % TWO64 == r
  {
  }

  lemma BufferIndex(low: nat, high: nat, n: nat)
    requires Counts(low, high, n)
    ensures low / 8 % 64 == n % 64
  {
    var q := 8 * n / TWO64;
    var k := q * 0x80_0000_0000_0000 + high * 0x80_0000;
    assert 8 * n == q * TWO64 + (high * TWO32 + low);
    assert low == 8 * (n - 64 * k);
    MultiplesOut(n, k);
  }

  lemma MultiplesOut(n: nat, k: nat)
    requires 64 * k <= n
    ensures (n - 64 * k) % 64 == n % 64
  {
  }

  lemma {:induction false} OctetAt(x: nat, n: nat, j: nat)
    requires j < n
    ensures BigEndian(x, n)[j] == (x / Power(256, n - 1 - j) % 256) as bv8
  {
    if j < n - 1 {
      OctetAt(x / 256, n - 1, j);
      DivideTwice(x, Power(256, n - 2 - j));
    }
  }

  lemma DivideTwice(x: nat, p: nat)
    requires p > 0
    ensures x / 256 / p == x / (256 * p)
  {
    var q, r := x / (256 * p), x % (256 * p);
    assert x == 256 * (p * q) + r && r / 256 < p;
    assert x / 256 == p * q + r / 256;
    QuotientIs(x / 256, p, q, r / 256);
  }

  lemma QuotientIs(x: nat, p: nat, q: nat, r: nat)
    requires p > 0 && x == p * q + r && r < p
    ensures x / p == q
  {
    var d := x / p - q;
    assert p * d == p * (x / p) - p * q == r - x % p;
    AtLeastOnce(p, d);
    AtLeastOnce(p, -d);
  }

  lemma AtLeastOnce(p: nat, d: int)
    ensures d >= 1 ==> p * d >= p
    ensures p * -d == -(p * d)
  {
  }

  lemma LowOctet(a: nat, low: nat)
    ensures (256 * a + low) / 256 == a + low / 256 && (256 * a + low) % 256 == low % 256
  {
  }

  lemma PowerOut(high: nat, p: nat)
    ensures high * (256 * p) == 256 * (high * p)
  {
  }

  lemma {:induction false} TwoWords(high: nat, low: nat, k: nat)
    requires low < Power(256, k)
    ensures BigEndian(high * Power(256, k) + low, 4 + k) == BigEndian(high, 4) + BigEndian(low, k)
  {
    if k == 0 {
      assert BigEndian(high, 4) + [] == BigEndian(high, 4);
    } else {
      var a := high * Power(256, k - 1);
      PowerOut(high, Power(256, k - 1));
      LowOctet(a, low);
      TwoWords(high, low / 256, k - 1);
      OneOctetMore(256 * a + low, low, BigEndian(high, 4), k);
    }
  }

  lemma OneOctetMore(x: nat, low: nat, front: seq<bv8>, k: nat)
    requires k > 0 && x % 256 == low % 256 && BigEndian(x / 256, 3 + k) == front + BigEndian(low / 256, k - 1)
    ensures BigEndian(x, 4 + k) == front + BigEndian(low, k)
  {
    OctetBehind(x, 4 + k);
    OctetBehind(low, k);
    Associative(front, BigEndian(low / 256, k - 1), [(low % 256) as bv8]);
  }

  lemma OctetBehind(x: nat, n: nat)
    requires n > 0
    ensures BigEndian(x, n) == BigEndian(x / 256, n - 1) + [(x % 256) as bv8]
  {
  }

  // ---------------------------------------------------------------- the context

  type Compression = (Registers, block) -> Registers

  predicate AgreesAt(f: Compression, h: Registers, b: block) {
    f(h, b) == Compress(h, b)
  }

  ghost predicate IsCompress(f: Compression) {
    forall h: Registers, b: block {:trigger AgreesAt(f, h, b)} :: AgreesAt(f, h, b)
  }

  lemma CompressIsCompress()
    ensures IsCompress(Compress)
  {
  }

  lemma InitialState()
    ensures StateOf([0x67452301, 0xEFCDAB89, 0x98BADCFE, 0x10325476, 0xC3D2E1F0]) == INITIAL
  {
  }

  class Context {
    const bigEndian: bool
    const state: array<word>
    const buffer: array<bv8>
    var count0: nat
    var count1: nat
    ghost const f: Compression
    ghost const h: Registers

    /** The message m has been absorbed: the state is the fold over its complete blocks, the buffer holds the tail. */
    ghost predicate Absorbed(m: seq<bv8>)
      reads this, state, buffer
    {
      && state.Length == 5 && buffer.Length == 64 && IsCompress(f)
      && StateOf(state[..]) == Fold(f, h, m)
      && buffer[..|m| % 64] == Tail(m)
      && Counts(count0, count1, |m|)
    }

    /** SHA1_Init. */
    constructor (bigEndian: bool, ghost f: Compression, ghost h: Registers)
      requires IsCompress(f) && h == StateOf([0x67452301, 0xEFCDAB89, 0x98BADCFE, 0x10325476, 0xC3D2E1F0])
      ensures Absorbed([]) && this.f == f && this.h == h && fresh(state) && fresh(buffer)
    {
      this.bigEndian, this.f, this.h := bigEndian, f, h;
      state := new word[5][0x67452301, 0xEFCDAB89, 0x98BADCFE, 0x10325476, 0xC3D2E1F0];
      buffer := new bv8[64](_ => 0);
      count0, count1 := 0, 0;
      new;
      assert state[..] == [0x67452301, 0xEFCDAB89, 0x98BADCFE, 0x10325476, 0xC3D2E1F0];
    }

    /** SHA1_Update with a chunk of less than 2^32 - 63 octets. */
    method Update(data: seq<bv8>, ghost m: seq<bv8>)
      requires Absorbed(m) && |data| < TWO32 - 63
      modifies this, state, buffer
      ensures Absorbed(m + data)
    {
      var j := Count(|data|, |m|);
      var i;
      j, i := CompressWhole(j, data, m);
      KeepTail(j, data, i, m);
    }

    /** Of the data behind m, the first i octets complete the last block in the state; without any, m is as it was. */
    ghost predicate Compressed(j: nat, data: seq<bv8>, i: nat, m: seq<bv8>)
      reads this, state, buffer
    {
      && state.Length == 5 && buffer.Length == 64 && IsCompress(f) && i <= |data|
      && if i == 0 then
           j == |m| % 64 && j + |data| < 64 && buffer[..j] == Tail(m) && StateOf(state[..]) == Fold(f, h, m)
         else
           j == 0 && (|m| + i) % 64 == 0 && |data| < i + 64 && StateOf(state[..]) == Fold(f, h, m + data[..i])
    }

    /** Every complete block goes into the state: the place in the buffer after that, and how much is taken. */
    method CompressWhole(j0: nat, data: seq<bv8>, ghost m: seq<bv8>) returns (j: nat, i: nat)
      requires state.Length == 5 && buffer.Length == 64 && IsCompress(f)
      requires j0 == |m| % 64 && buffer[..j0] == Tail(m) && StateOf(state[..]) == Fold(f, h, m)
      modifies state, buffer
      ensures Compressed(j, data, i, m)
    {
      j, i := j0, 0;
      if j + |data| > 63 {
        i := WholeBlocks(j, data, m);
        j := 0;
      }
    }

    /** The branch that completes at least one block. */
    method WholeBlocks(j: nat, data: seq<bv8>, ghost m: seq<bv8>) returns (i: nat)
      requires state.Length == 5 && buffer.Length == 64 && IsCompress(f)
      requires j == |m| % 64 && j + |data| > 63 && buffer[..j] == Tail(m)
      requires StateOf(state[..]) == Fold(f, h, m)
      modifies state, buffer
      ensures 0 < i <= |data| < i + 64 && (|m| + i) % 64 == 0
      ensures StateOf(state[..]) == Fold(f, h, m + data[..i])
    {
      i := 64 - j;
      FillsUp(|m|, i);
      CompleteBlock(j, data[..i], m);
      i := CompressBlocks(data, i, m);
    }

    /** The last memcpy. */
    method KeepTail(j: nat, data: seq<bv8>, i: nat, ghost m: seq<bv8>)
      requires Compressed(j, data, i, m) && Counts(count0, count1, |m + data|)
      modifies buffer
      ensures Absorbed(m + data)
    {
      TailKept(f, h, m, data, i);
      Fill(j, data[i..]);
      assert j + |data[i..]| == |Tail(m + data)|;
    }

    /** The counter, and the index it had in the buffer. */
    method Count(len: nat, ghost n: nat) returns (j: nat)
      requires Counts(count0, count1, n) && len < TWO32
      modifies this
      ensures Counts(count0, count1, n + len) && j == n % 64
    {
      CounterAdvances(count0, count1, n, len);
      BufferIndex(count0, count1, n);
      j := count0;
      count0 := (count0 + len * 8 % TWO32) % TWO32;
      if count0 < j {
        count1 := (count1 + 1) % TWO32;
      }
      count1 := (count1 + len / 0x2000_0000) % TWO32;
      j := j / 8 % 64;
    }

    /** memcpy into the buffer at offset j. */
    method Fill(j: nat, data: seq<bv8>)
      requires buffer.Length == 64 && j + |data| <= 64
      modifies buffer
      ensures buffer[..j + |data|] == old(buffer[..j]) + data
    {
      forall k | 0 <= k < |data| {
        buffer[j + k] := data[k];
      }
    }

    method CompressState(b: block)
      requires state.Length == 5 && IsCompress(f)
      modifies state
      ensures StateOf(state[..]) == f(StateOf(old(state[..])), b)
    {
      assert AgreesAt(f, StateOf(state[..]), b);
      Transform(state, b, bigEndian);
    }

    /** The octets that fill the buffer up, and the block compressed. */
    method CompleteBlock(j: nat, head: seq<bv8>, ghost m: seq<bv8>)
      requires state.Length == 5 && buffer.Length == 64 && IsCompress(f)
      requires j == |m| % 64 && j + |head| == 64 && buffer[..j] == Tail(m)
      requires StateOf(state[..]) == Fold(f, h, m)
      modifies state, buffer
      ensures StateOf(state[..]) == Fold(f, h, m + head)
    {
      Fill(j, head);
      assert buffer[..] == buffer[..64] == Tail(m) + head;
      BlockCompleted(f, h, m, head);
      CompressState(buffer[..]);
    }

    /** The loop over the complete blocks that need no copying. */
    method CompressBlocks(data: seq<bv8>, i0: nat, ghost m: seq<bv8>) returns (i: nat)
      requires state.Length == 5 && IsCompress(f) && i0 <= |data| && (|m| + i0) % 64 == 0
      requires StateOf(state[..]) == Fold(f, h, m + data[..i0])
      modifies state
      ensures i0 <= i <= |data| < i + 64 && (|m| + i) % 64 == 0
      ensures StateOf(state[..]) == Fold(f, h, m + data[..i])
    {
      i := i0;
      while i + 63 < |data|
        invariant i0 <= i <= |data| && (|m| + i) % 64 == 0
        invariant StateOf(state[..]) == Fold(f, h, m + data[..i])
      {
        CompressState(data[i..i + 64]);
        FoldAppend(f, h, m + data[..i], data[i..i + 64]);
        assert m + data[..i] + data[i..i + 64] == m + data[..i + 64];
        i := i + 64;
      }
    }

    /** SHA1_Final: the padding goes through Update, octet by octet; the digest is read off the state. */
    method Final(ghost m: seq<bv8>) returns (digest: array<bv8>)
      requires Absorbed(m)
      modifies this, state, buffer
      ensures digest[..] == Octets(Fold(f, h, Pad(m)))
    {
      var finalcount := FinalCount(|m|);
      ghost var padded := PadWithZeros(m);
      PadIs(m, finalcount);
      Update(finalcount, padded);
      digest := ReadDigest();
    }

    /** The eight octets of the counter, from count[1] down. */
    method FinalCount(ghost n: nat) returns (finalcount: seq<bv8>)
      requires Counts(count0, count1, n)
      ensures finalcount == BigEndian(8 * n % TWO64, 8)
    {
      finalcount := [];
      for i := 0 to 8
        invariant |finalcount| == i
        invariant forall j :: 0 <= j < i ==> finalcount[j] == (BigEndian(count1, 4) + BigEndian(count0, 4))[j]
      {
        var w := if i >= 4 then count0 else count1;
        var octet := CounterOctet(w, i % 4);
        assert (BigEndian(count1, 4) + BigEndian(count0, 4))[i] == BigEndian(w, 4)[i % 4];
        finalcount := finalcount + [octet];
      }
      TwoWordsOf64(count1, count0);
      assert finalcount == BigEndian(count1, 4) + BigEndian(count0, 4);
    }

    method CounterOctet(w: nat, j: nat) returns (octet: bv8)
      requires j < 4
      ensures octet == BigEndian(w, 4)[j]
    {
      OctetAt(w, 4, j);
      octet := (w / Power(256, 3 - j) % 256) as bv8;
    }

    /** The octet 0x80, then zeros until the counter stands at 448 bits mod 512. */
    method PadWithZeros(ghost m: seq<bv8>) returns (ghost padded: seq<bv8>)
      requires Absorbed(m)
      modifies this, state, buffer
      ensures Absorbed(padded) && padded == m + [0x80] + Zeros(PadZeros(|m|))
    {
      Update([0x80], m);
      ghost var k: nat := 0;
      padded := m + [0x80] + Zeros(0);
      assert padded == m + [0x80];
      BufferIndex(count0, count1, |padded|);
      while count0 / 8 % 64 != 56
        invariant k <= PadZeros(|m|) && padded == m + [0x80] + Zeros(k) && Absorbed(padded)
        invariant |padded| == |m| + 1 + k && count0 / 8 % 64 == |padded| % 64
        decreases PadZeros(|m|) - k
      {
        ZerosStop(|m|, k);
        padded := AddZero(m + [0x80], k, padded);
        k := k + 1;
      }
      ZerosStop(|m|, k);
    }

    method AddZero(ghost m: seq<bv8>, ghost k: nat, ghost padded: seq<bv8>) returns (ghost longer: seq<bv8>)
      requires Absorbed(padded) && padded == m + Zeros(k)
      modifies this, state, buffer
      ensures Absorbed(longer) && longer == m + Zeros(k + 1) && |longer| == |padded| + 1
      ensures count0 / 8 % 64 == |longer| % 64
    {
      Update([0], padded);
      OneMoreZero(m, k);
      longer := padded + [0];
      BufferIndex(count0, count1, |longer|);
    }

    method ReadDigest() returns (digest: array<bv8>)
      requires state.Length == 5
      ensures digest[..] == Octets(StateOf(state[..]))
    {
      ghost var octets := Octets(StateOf(state[..]));
      digest := new bv8[20];
      for i := 0 to 20
        invariant forall j :: 0 <= j < i ==> digest[j] == octets[j]
        invariant octets == Octets(StateOf(state[..]))
      {
        digest[i] := OctetOf(state[i / 4], i % 4);
      }
    }
  }

  lemma OneMoreZero(m: seq<bv8>, k: nat)
    ensures m + Zeros(k) + [0] == m + Zeros(k + 1)
  {
  }

  lemma ZerosStop(n: nat, k: nat)
    requires k <= PadZeros(n)
    ensures (n + 1 + k) % 64 == 56 <==> k == PadZeros(n)
  {
  }

  lemma TwoWordsOf64(high: nat, low: nat)
    requires low < TWO32
    ensures BigEndian(high * TWO32 + low, 8) == BigEndian(high, 4) + BigEndian(low, 4)
  {
    assert Power(256, 4) == 256 * Power(256, 3) == 256 * (256 * Power(256, 2)) == 256 * (256 * (256 * Power(256, 1)));
    TwoWords(high, low, 4);
  }

  lemma PadIs(m: seq<bv8>, finalcount: seq<bv8>)
    requires finalcount == BigEndian(8 * |m| % TWO64, 8)
    ensures m + [0x80] + Zeros(PadZeros(|m|)) + finalcount == Pad(m)
  {
  }

  // ---------------------------------------------------------------- a whole message

  function Joined(chunks: seq<seq<bv8>>): seq<bv8> {
    if chunks == [] then [] else Joined(chunks[..|chunks| - 1]) + chunks[|chunks| - 1]
  }

  /** However the message is cut into chunks, on either byte order, the digest is that of the standard. */
  method DigestOfChunks(chunks: seq<seq<bv8>>, bigEndian: bool) returns (digest: array<bv8>)
    requires forall i :: 0 <= i < |chunks| ==> |chunks[i]| < TWO32 - 63
    ensures digest[..] == Digest(Joined(chunks))
  {
    CompressIsCompress();
    InitialState();
    var context := new Context(bigEndian, Compress, INITIAL);
    for i := 0 to |chunks|
      invariant context.Absorbed(Joined(chunks[..i]))
      invariant fresh(context) && fresh(context.state) && fresh(context.buffer)
    {
      context.Update(chunks[i], Joined(chunks[..i]));
      assert chunks[..i + 1][..i] == chunks[..i];
    }
    assert chunks[..|chunks|] == chunks;
    digest := context.Final(Joined(chunks));
  }
}
