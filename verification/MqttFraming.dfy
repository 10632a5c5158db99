/** MQTT control packets in a byte stream: the fixed header of section 2.2 of MQTT 3.1.1 and src/mqtt.c:45-109, 315-341. */
module MqttFraming {
  import opened Bytes
  import opened Powers

  // ---------------------------------------------------------------- the remaining length

  const MAX_LENGTH := 0x1000_0000

  /** Section 2.2.3: one to four octets, the top bit set on all but the last. */
  predicate IsLengthField(f: seq<byte>) {
    && 1 <= |f| <= 4 && f[|f| - 1] < 128
    && forall i :: 0 <= i < |f| - 1 ==> f[i] >= 128
  }

  /** The seven low bits of each octet, the least significant octet first. */
  function LengthValue(f: seq<byte>): (n: nat) {
    if f == [] then 0 else f[0] % 128 + 128 * LengthValue(f[1..])
  }

  function EncodeLength(n: nat): (f: seq<byte>) {
    if n < 128 then [n] else [n % 128 + 128] + EncodeLength(n / 128)
  }

  lemma {:induction false} EncodeLengthValue(n: nat)
    ensures LengthValue(EncodeLength(n)) == n
    ensures var f := EncodeLength(n); f != [] && f[|f| - 1] < 128 && forall i :: 0 <= i < |f| - 1 ==> f[i] >= 128
  {
    if n >= 128 {
      EncodeLengthValue(n / 128);
      assert EncodeLength(n)[1..] == EncodeLength(n / 128);
    }
  }

  lemma {:induction false} EncodeLengthSize(n: nat, k: nat)
    requires 1 <= k && n < Power(128, k) && (k == 1 || n >= Power(128, k - 1))
    ensures |EncodeLength(n)| == k
  {
    if k > 1 {
      assert Power(128, k) == 128 * Power(128, k - 1) && Power(128, k - 1) == 128 * Power(128, k - 2);
      if k > 2 {
        assert Power(128, k - 2) == 128 * Power(128, k - 3);
      }
      EncodeLengthSize(n / 128, k - 1);
    }
  }

  /** Every length below 2^28 has a valid field that stands for it, in the number of octets table 2.4 gives. */
  lemma LengthRoundTrip(n: nat)
    requires n < MAX_LENGTH
    ensures IsLengthField(EncodeLength(n)) && LengthValue(EncodeLength(n)) == n
    ensures |EncodeLength(n)| == if n < 128 then 1 else if n < 16_384 then 2 else if n < 2_097_152 then 3 else 4
  {
    assert Power(128, 2) == 128 * Power(128, 1) == 128 * (128 * Power(128, 0));
    assert Power(128, 4) == 128 * Power(128, 3) == 128 * (128 * Power(128, 2));
    EncodeLengthValue(n);
    EncodeLengthSize(n, if n < 128 then 1 else if n < 16_384 then 2 else if n < 2_097_152 then 3 else 4);
  }

  // ---------------------------------------------------------------- mqtt_packet_check_length

  /** -1, -2, or 0 with the remaining length and the size of the fixed header. */
  datatype Check = Short | TooLong | Header(len: nat, cnt: nat)

  function ScanLength(buf: seq<byte>, cnt: nat, mult: nat, len: nat): (r: Check)
    ensures r.Header? ==> cnt < r.cnt <= |buf|
    decreases 5 - cnt
  {
    if cnt >= |buf| then Short
    else if cnt > 4 then TooLong
    else
      var len' := len + buf[cnt] % 128 * mult;
      if buf[cnt] >= 128 then ScanLength(buf, cnt + 1, mult * 128, len') else Header(len', cnt + 1)
  }

  function CheckLength(buf: seq<byte>): Check {
    if |buf| < 2 then Short else ScanLength(buf, 1, 1, 0)
  }

  method PacketCheckLength(buf: seq<byte>, procSize: nat) returns (res: int, len: nat, cnt: nat, procSize': nat)
    ensures match CheckLength(buf)
      case Short => res == -1 && procSize' == procSize
      case TooLong => res == -2 && procSize' == procSize
      case Header(l, c) => res == 0 && len == l < MAX_LENGTH && cnt == c && procSize' == procSize + l + c
  {
    procSize', len, cnt := procSize, 0, 1;
    if |buf| < 2 {
      return -1, len, cnt, procSize';
    }
    var mult: nat := 1;
    var more := true;
    while more
      invariant 1 <= cnt <= 5 && mult == Power(128, cnt - 1) && len < mult
      invariant CheckLength(buf) == if more then ScanLength(buf, cnt, mult, len) else Header(len, cnt)
      decreases more, 5 - cnt
    {
      if cnt >= |buf| {
        return -1, len, cnt, procSize';
      }
      if cnt > 4 {
        return -2, len, cnt, procSize';
      }
      var digit: nat := buf[cnt];
      DigitFits(len, digit % 128, mult);
      len := len + digit % 128 * mult;
      mult := mult * 128;
      cnt := cnt + 1;
      more := digit >= 128;
    }
    assert Power(128, 4) == 128 * Power(128, 3) == 128 * (128 * Power(128, 2)) == 128 * (128 * (128 * Power(128, 1)));
    PowGrows(cnt - 1, 4);
    res, procSize' := 0, procSize + len + cnt;
  }

  lemma DigitFits(len: nat, d: nat, mult: nat)
    requires len < mult && d < 128
    ensures len + d * mult < mult * 128
  {
    assert d * mult <= 127 * mult;
  }

  lemma {:induction false} PowGrows(j: nat, k: nat)
    requires j <= k
    ensures Power(128, j) <= Power(128, k)
  {
    if j < k {
      PowGrows(j, k - 1);
    }
  }

  // ---------------------------------------------------------------- frames

  /** A whole packet: one octet of flags, a length field of k octets, and as many octets as it says. */
  predicate IsFrameWith(f: seq<byte>, k: nat) {
    && 1 <= k && k + 1 <= |f| && IsLengthField(f[1..k + 1])
    && |f| == 1 + k + LengthValue(f[1..k + 1])
  }

  predicate IsFrame(f: seq<byte>) {
    exists k :: 1 <= k <= 4 && IsFrameWith(f, k)
  }

  function Concat(fs: seq<seq<byte>>): seq<byte> {
    if fs == [] then [] else fs[0] + Concat(fs[1..])
  }

  predicate AllFrames(fs: seq<seq<byte>>) {
    forall i :: 0 <= i < |fs| ==> IsFrame(fs[i])
  }

  function ValueAt(buf: seq<byte>, i: nat, e: nat): nat
    requires i <= e <= |buf|
    decreases e - i
  {
    if i == e then 0 else buf[i] % 128 + 128 * ValueAt(buf, i + 1, e)
  }

  lemma {:induction false} ValueAtIsValue(buf: seq<byte>, i: nat, e: nat)
    requires i <= e <= |buf|
    ensures ValueAt(buf, i, e) == LengthValue(buf[i..e])
    decreases e - i
  {
    if i < e {
      assert buf[i..e][1..] == buf[i + 1..e];
      ValueAtIsValue(buf, i + 1, e);
    }
  }

  /** The field stands at 1..e: its last octet is the first with the top bit clear. */
  predicate FieldAt(buf: seq<byte>, i: nat, e: nat) {
    1 <= i < e <= 5 && e <= |buf| && buf[e - 1] < 128 && forall j :: i <= j < e - 1 ==> buf[j] >= 128
  }

  /** The scan reads the field the frame starts with, whatever follows it. */
  lemma {:induction false} ScanReadsField(buf: seq<byte>, cnt: nat, mult: nat, len: nat, e: nat)
    requires FieldAt(buf, cnt, e)
    ensures ScanLength(buf, cnt, mult, len) == Header(len + mult * ValueAt(buf, cnt, e), e)
    decreases e - cnt
  {
    var d: nat, v := buf[cnt] % 128, ValueAt(buf, cnt + 1, e);
    Horner(mult, d, v);
    if cnt + 1 < e {
      ScanReadsField(buf, cnt + 1, mult * 128, len + d * mult, e);
    }
  }

  lemma Horner(mult: nat, d: nat, v: nat)
    ensures d * mult + mult * 128 * v == mult * (d + 128 * v)
  {
  }

  /** And whatever header it reads is one whose field is in the buffer. */
  lemma {:induction false} ScanFindsField(buf: seq<byte>, cnt: nat, mult: nat, len: nat)
    requires 1 <= cnt && ScanLength(buf, cnt, mult, len).Header?
    ensures
      var e := ScanLength(buf, cnt, mult, len).cnt;
      FieldAt(buf, cnt, e)
    decreases 5 - cnt
  {
    if buf[cnt] >= 128 {
      ScanFindsField(buf, cnt + 1, mult * 128, len + buf[cnt] % 128 * mult);
    }
  }

  lemma FrameHeader(f: seq<byte>, k: nat, rest: seq<byte>)
    requires k <= 4 && IsFrameWith(f, k)
    ensures CheckLength(f + rest) == Header(|f| - 1 - k, 1 + k)
  {
    var buf := f + rest;
    var field := f[1..k + 1];
    assert buf[1..k + 1] == field;
    assert forall i :: 1 <= i < k ==> buf[i] == field[i - 1];
    assert buf[k] == field[k - 1];
    ScanReadsField(buf, 1, 1, 0, k + 1);
    ValueAtIsValue(buf, 1, k + 1);
  }

  lemma HeaderFrame(buf: seq<byte>)
    requires CheckLength(buf).Header? && CheckLength(buf).cnt + CheckLength(buf).len <= |buf|
    ensures var n := CheckLength(buf).cnt + CheckLength(buf).len; 0 < n && IsFrame(buf[..n])
  {
    var Header(len, cnt) := CheckLength(buf);
    ScanFindsField(buf, 1, 1, 0);
    ScanReadsField(buf, 1, 1, 0, cnt);
    ValueAtIsValue(buf, 1, cnt);
    var f := buf[..cnt + len];
    assert f[1..cnt] == buf[1..cnt];
    assert forall i :: 0 <= i < cnt - 1 ==> f[1..cnt][i] == buf[i + 1];
    assert IsFrameWith(f, cnt - 1);
  }

  // ---------------------------------------------------------------- mqtt_packets_buffer_check

  function BufferCheck(buf: seq<byte>): int
    decreases |buf|
  {
    match CheckLength(buf)
    case Short => -1
    case TooLong => -2
    case Header(len, cnt) =>
      if cnt + len == |buf| then 0
      else if cnt + len > |buf| then -1
      else BufferCheck(buf[cnt + len..])
  }

  method PacketsBufferCheck(buf: seq<byte>) returns (res: int)
    ensures res == BufferCheck(buf)
  {
    var procSize := 0;
    assert buf[0..] == buf;
    while true
      invariant procSize <= |buf| && BufferCheck(buf) == BufferCheck(buf[procSize..])
      decreases |buf| - procSize
    {
      ghost var rest := buf[procSize..];
      var len, cnt;
      res, len, cnt, procSize := PacketCheckLength(buf[procSize..], procSize);
      if res != 0 || procSize == |buf| {
        break;
      }
      ScanFindsField(rest, 1, 1, 0);
      if procSize > |buf| {
        return -1;
      }
      assert rest[cnt + len..] == buf[procSize..];
    }
  }

  /** One whole frame is stepped over. */
  lemma CheckStep(f: seq<byte>, rest: seq<byte>)
    requires IsFrame(f)
    ensures BufferCheck(f + rest) == if rest == [] then 0 else BufferCheck(rest)
  {
    var k :| 1 <= k <= 4 && IsFrameWith(f, k);
    FrameHeader(f, k, rest);
    assert (f + rest)[|f|..] == rest;
  }

  lemma {:induction false} CheckFrames(fs: seq<seq<byte>>, rest: seq<byte>)
    requires AllFrames(fs) && |fs| + |rest| > 0
    ensures BufferCheck(Concat(fs) + rest) == if rest == [] then 0 else BufferCheck(rest)
  {
    if fs == [] {
      assert Concat(fs) + rest == rest;
    } else {
      assert Concat(fs) + rest == fs[0] + (Concat(fs[1..]) + rest);
      CheckStep(fs[0], Concat(fs[1..]) + rest);
      if |fs| > 1 || rest != [] {
        CheckFrames(fs[1..], rest);
        if |fs| > 1 {
          var k :| 1 <= k <= 4 && IsFrameWith(fs[1], k);
          assert Concat(fs[1..]) == fs[1] + Concat(fs[1..][1..]);
        }
      }
    }
  }

  /** Every buffer is some whole frames and a rest in which the next header cannot be read or promises more. */
  lemma {:induction false} Cut(buf: seq<byte>) returns (fs: seq<seq<byte>>, rest: seq<byte>)
    ensures AllFrames(fs) && Concat(fs) + rest == buf
    ensures rest == [] || !CheckLength(rest).Header? || CheckLength(rest).cnt + CheckLength(rest).len > |rest|
    decreases |buf|
  {
    if CheckLength(buf).Header? && CheckLength(buf).cnt + CheckLength(buf).len <= |buf| {
      var n := CheckLength(buf).cnt + CheckLength(buf).len;
      HeaderFrame(buf);
      fs, rest := Cut(buf[n..]);
      assert ([buf[..n]] + fs)[1..] == fs;
      assert buf[..n] + (Concat(fs) + rest) == buf;
      fs := [buf[..n]] + fs;
    } else {
      fs, rest := [], buf;
    }
  }

  ghost predicate AreFrames(buf: seq<byte>, fs: seq<seq<byte>>) {
    fs != [] && AllFrames(fs) && Concat(fs) == buf
  }

  /** 0 exactly for a non-empty concatenation of whole frames. */
  lemma ZeroMeansWholeFrames(buf: seq<byte>)
    ensures BufferCheck(buf) == 0 <==> exists fs :: AreFrames(buf, fs)
  {
    var fs, rest := Cut(buf);
    if fs != [] || rest != [] {
      CheckFrames(fs, rest);
    }
    if BufferCheck(buf) == 0 {
      assert AreFrames(buf, fs);
    }
    if gs :| AreFrames(buf, gs) {
      CheckFrames(gs, []);
      assert Concat(gs) + [] == buf;
    }
  }

  /** -2 exactly when whole frames are followed by a header whose length field has a fifth octet. */
  ghost predicate EndsTooLong(buf: seq<byte>, fs: seq<seq<byte>>, rest: seq<byte>) {
    && AllFrames(fs) && Concat(fs) + rest == buf
    && |rest| > 5 && forall i :: 1 <= i <= 4 ==> rest[i] >= 128
  }

  lemma MinusTwoMeansTooLong(buf: seq<byte>)
    ensures BufferCheck(buf) == -2 <==> exists fs, rest :: EndsTooLong(buf, fs, rest)
  {
    var fs, rest := Cut(buf);
    if fs != [] || rest != [] {
      CheckFrames(fs, rest);
    }
    if BufferCheck(buf) == -2 {
      FifthOctet(rest);
      assert EndsTooLong(buf, fs, rest);
    }
    if gs, r :| EndsTooLong(buf, gs, r) {
      CheckFrames(gs, r);
      FifthOctet(r);
    }
  }

  lemma FifthOctet(buf: seq<byte>)
    ensures CheckLength(buf).TooLong? <==> |buf| > 5 && forall i :: 1 <= i <= 4 ==> buf[i] >= 128
  {
    assert ScanLength(buf, 5, 0, 0).TooLong? <==> |buf| > 5;
  }

  // ---------------------------------------------------------------- what a connection has received so far

  lemma {:induction false} ScanRunsOut(p: seq<byte>, cnt: nat, mult: nat, len: nat)
    requires 1 <= cnt <= |p| <= 4 && forall i :: cnt <= i < |p| ==> p[i] >= 128
    ensures ScanLength(p, cnt, mult, len).Short?
    decreases |p| - cnt
  {
    if cnt < |p| {
      ScanRunsOut(p, cnt + 1, mult * 128, len + p[cnt] % 128 * mult);
    }
  }

  /** A part of a frame is never taken for a whole one, nor for an error. */
  lemma PartOfFrame(f: seq<byte>, p: seq<byte>)
    requires IsFrame(f) && p < f
    ensures BufferCheck(p) == -1
  {
    var k :| 1 <= k <= 4 && IsFrameWith(f, k);
    if |p| <= k {
      assert forall i :: 1 <= i < |p| ==> p[i] == f[1..k + 1][i - 1];
      if |p| >= 2 {
        ScanRunsOut(p, 1, 1, 0);
      }
    } else {
      var field := f[1..k + 1];
      assert p[1..k + 1] == field;
      assert forall i :: 1 <= i < k ==> p[i] == field[i - 1];
      assert p[k] == field[k - 1];
      ScanReadsField(p, 1, 1, 0, k + 1);
      ValueAtIsValue(p, 1, k + 1);
    }
  }

  ghost predicate OnBoundary(fs: seq<seq<byte>>, p: seq<byte>) {
    exists n :: 0 < n <= |fs| && p == Concat(fs[..n])
  }

  lemma FrameNotEmpty(f: seq<byte>)
    requires IsFrame(f)
    ensures |f| >= 2
  {
    var k :| 1 <= k <= 4 && IsFrameWith(f, k);
  }

  /** Of a stream of whole frames every non-empty prefix gives 0 on a frame boundary, -1 elsewhere. */
  lemma {:induction false} PrefixOfFrames(fs: seq<seq<byte>>, p: seq<byte>)
    requires AllFrames(fs) && p != [] && p <= Concat(fs)
    ensures BufferCheck(p) == if OnBoundary(fs, p) then 0 else -1
    decreases |fs|
  {
    var f := fs[0];
    FrameNotEmpty(f);
    if |p| < |f| {
      PartOfFrame(f, p);
      forall n | 0 < n <= |fs| ensures p != Concat(fs[..n]) {
        assert fs[..n][0] == f;
      }
    } else {
      var q := p[|f|..];
      assert p == f + q && q <= Concat(fs[1..]);
      CheckStep(f, q);
      if q != [] {
        PrefixOfFrames(fs[1..], q);
      }
      BoundaryStep(fs, q);
    }
  }

  lemma BoundaryStep(fs: seq<seq<byte>>, q: seq<byte>)
    requires AllFrames(fs) && |fs| > 0
    ensures OnBoundary(fs, fs[0] + q) <==> q == [] || OnBoundary(fs[1..], q)
  {
    forall n | 0 < n <= |fs| ensures Concat(fs[..n]) == fs[0] + Concat(fs[1..][..n - 1]) {
      assert fs[..n][1..] == fs[1..][..n - 1];
    }
    if OnBoundary(fs, fs[0] + q) {
      var n :| 0 < n <= |fs| && fs[0] + q == Concat(fs[..n]);
      assert q == (fs[0] + q)[|fs[0]|..] == Concat(fs[1..][..n - 1]);
    }
    if q == [] {
      assert fs[0] + q == Concat(fs[..1]);
    }
    if OnBoundary(fs[1..], q) {
      var n :| 0 < n <= |fs[1..]| && q == Concat(fs[1..][..n]);
      assert fs[0] + q == Concat(fs[..n + 1]);
    }
  }

  // ---------------------------------------------------------------- mqtt_fixed_header_decode

  /** `rem` is the memory from rem_buf on. */
  datatype FixedHeader = FixedHeader(msgType: nat, dup: nat, qos: nat, retain: nat, remLen: nat, rem: seq<byte>) {
    predicate Valid() {
      msgType < 16 && dup < 2 && qos < 4 && retain < 2
    }

    function FirstOctet(): byte
      requires Valid()
    {
      msgType * 16 + dup * 8 + qos * 2 + retain
    }
  }

  /** Figure 2.2 of section 2.2: the type in bits 7 to 4, DUP in bit 3, QoS in bits 2 and 1, RETAIN in bit 0. */
  predicate HasBits(b: byte, hdr: FixedHeader) {
    hdr.msgType == b / 16 && hdr.dup == b / 8 % 2 && hdr.qos == b / 2 % 4 && hdr.retain == b % 2
  }

  lemma FirstOctetBits(hdr: FixedHeader)
    requires hdr.Valid()
    ensures HasBits(hdr.FirstOctet(), hdr)
  {
    var r := hdr.msgType * 2 + hdr.dup;
    var q := r * 4 + hdr.qos;
    assert hdr.FirstOctet() == q * 2 + hdr.retain;
    assert hdr.FirstOctet() / 2 == q && hdr.FirstOctet() / 8 == r && hdr.FirstOctet() / 16 == hdr.msgType;
  }

  /** Whatever header is decoded has the fields in those bits. */
  lemma DecodedBits(buf: seq<byte>, hdr: FixedHeader)
    requires DecodesTo(buf, hdr)
    ensures buf != [] && HasBits(buf[0], hdr)
  {
    FirstOctetBits(hdr);
  }

  /** The header is what a buffer starts with. */
  predicate DecodesTo(buf: seq<byte>, hdr: FixedHeader) {
    match CheckLength(buf)
    case Header(len, cnt) =>
      hdr.Valid() && hdr.FirstOctet() == buf[0] && hdr.remLen == len && hdr.rem == buf[cnt..]
    case _ => false
  }

  method FixedHeaderDecode(buf: seq<byte>, procSize: nat) returns (res: int, hdr: FixedHeader, procSize': nat)
    ensures res == if CheckLength(buf).Header? then 0 else -1
    ensures res == -1 ==> procSize' == procSize
    ensures res == 0 ==> DecodesTo(buf, hdr) && procSize' == procSize + CheckLength(buf).cnt + CheckLength(buf).len
    ensures res == 0 ==> buf != [] && HasBits(buf[0], hdr)
  {
    var len, cnt;
    res, len, cnt, procSize' := PacketCheckLength(buf, procSize);
    if res < 0 {
      return -1, FixedHeader(0, 0, 0, 0, 0, []), procSize';
    }
    var b: nat := buf[0];
    OctetBits(b);
    hdr := FixedHeader(b / 16, b / 8 % 2, b / 2 % 4, b % 2, len, buf[cnt..]);
  }

  lemma OctetBits(b: nat)
    requires b < 256
    ensures b / 16 < 16 && b / 16 * 16 + b / 8 % 2 * 8 + b / 2 % 4 * 2 + b % 2 == b
  {
    var q := b / 2;
    var r := q / 4;
    assert b / 8 == r && b / 16 == r / 2;
    assert b == 2 * q + b % 2 && q == 4 * r + q % 4 && r == 2 * (r / 2) + r % 2;
  }

  /** Decoding header after header walks from each boundary of a stream of whole frames to the next. */
  lemma WalkIsBoundaries(fs: seq<seq<byte>>, n: nat)
    requires AllFrames(fs) && n < |fs|
    ensures
      var at, next := |Concat(fs[..n])|, |Concat(fs[..n + 1])|;
      && at < next <= |Concat(fs)| && Concat(fs)[at..next] == fs[n]
      && CheckLength(Concat(fs)[at..]).Header?
      && at + CheckLength(Concat(fs)[at..]).cnt + CheckLength(Concat(fs)[at..]).len == next
  {
    ConcatSplit(fs, n);
    ConcatSplit(fs, n + 1);
    assert Concat(fs[n..]) == fs[n] + Concat(fs[n + 1..]) by { assert fs[n..][1..] == fs[n + 1..]; }
    var k :| 1 <= k <= 4 && IsFrameWith(fs[n], k);
    FrameHeader(fs[n], k, Concat(fs[n + 1..]));
  }

  lemma {:induction false} ConcatSplit(fs: seq<seq<byte>>, n: nat)
    requires n <= |fs|
    ensures Concat(fs) == Concat(fs[..n]) + Concat(fs[n..])
    ensures n > 0 ==> Concat(fs[..n]) == Concat(fs[..n - 1]) + fs[n - 1]
  {
    if n > 0 {
      ConcatSplit(fs[1..], n - 1);
      assert fs[..n][1..] == fs[1..][..n - 1] && fs[1..][n - 1..] == fs[n..];
      if n > 1 {
        assert fs[..n - 1][1..] == fs[1..][..n - 2];
      }
    }
  }

  // ---------------------------------------------------------------- mqtt_packet_encode

  method EncodeDigits(remLen: nat) returns (digit: array<byte>, cnt: nat)
    requires remLen < MAX_LENGTH
    ensures 1 <= cnt <= digit.Length == 4 && digit[..cnt] == EncodeLength(remLen)
  {
    LengthRoundTrip(remLen);
    digit := new byte[4](_ => 0);
    cnt := 0;
    var len := remLen;
    ghost var field := EncodeLength(remLen);
    var more := true;
    while more
      invariant if more then cnt < |field| && field[cnt..] == EncodeLength(len) else cnt == |field|
      invariant forall i {:trigger digit[i]} :: 0 <= i < cnt ==> digit[i] == field[i]
      decreases more, len
    {
      assert field[cnt..][1..] == field[cnt + 1..] && field[cnt] == field[cnt..][0];
      digit[cnt] := len % 128;
      len := len / 128;
      if len > 0 {
        digit[cnt] := digit[cnt] + 128;
      }
      cnt := cnt + 1;
      more := len > 0;
    }
  }

  method PacketEncode(hdr: FixedHeader) returns (buf: array<byte>)
    requires hdr.Valid() && hdr.remLen == |hdr.rem| < MAX_LENGTH
    ensures buf[..] == [hdr.FirstOctet()] + EncodeLength(hdr.remLen) + hdr.rem
    ensures buf.Length > 0 && HasBits(buf[0], hdr)
  {
    FirstOctetBits(hdr);
    var digit, cnt := EncodeDigits(hdr.remLen);
    buf := new byte[1 + cnt + hdr.remLen](_ => 0);
    buf[0] := hdr.FirstOctet();
    forall i | 0 <= i < cnt {
      buf[1 + i] := digit[i];
    }
    forall i | 0 <= i < hdr.remLen {
      buf[1 + cnt + i] := hdr.rem[i];
    }
    ghost var field := EncodeLength(hdr.remLen);
    assert forall i :: 0 <= i < cnt ==> buf[1 + i] == field[i];
  }

  /** The first octet holds type, dup, QoS and retain, and nothing else. */
  lemma OctetDetermines(a: FixedHeader, b: FixedHeader)
    requires a.Valid() && b.Valid() && a.FirstOctet() == b.FirstOctet()
    ensures a.msgType == b.msgType && a.dup == b.dup && a.qos == b.qos && a.retain == b.retain
  {
    var x, y := a.dup * 8 + a.qos * 2 + a.retain, b.dup * 8 + b.qos * 2 + b.retain;
    assert x < 16 && y < 16 && a.msgType * 16 + x == b.msgType * 16 + y;
  }

  function Packet(hdr: FixedHeader): seq<byte>
    requires hdr.Valid()
  {
    [hdr.FirstOctet()] + EncodeLength(hdr.remLen) + hdr.rem
  }

  /** Decoding what was encoded gives every field back, in front of any octets, and only that header. */
  lemma EncodedDecodes(hdr: FixedHeader, rest: seq<byte>, d: FixedHeader)
    requires hdr.Valid() && hdr.remLen == |hdr.rem| < MAX_LENGTH
    ensures DecodesTo(Packet(hdr) + rest, d) <==> d == hdr.(rem := hdr.rem + rest)
  {
    EncodedIsFrame(hdr, rest);
    assert (Packet(hdr) + rest)[0] == hdr.FirstOctet();
    if DecodesTo(Packet(hdr) + rest, d) {
      OctetDetermines(d, hdr);
    }
  }

  /** What is encoded is one frame, and the length check reads its length and stops at the octets behind it. */
  lemma EncodedIsFrame(hdr: FixedHeader, rest: seq<byte>)
    requires hdr.Valid() && hdr.remLen == |hdr.rem| < MAX_LENGTH
    ensures
      var field := EncodeLength(hdr.remLen);
      var f := [hdr.FirstOctet()] + field + hdr.rem;
      && IsFrame(f) && CheckLength(f + rest) == Header(hdr.remLen, 1 + |field|)
      && (f + rest)[1 + |field|..] == hdr.rem + rest
  {
    LengthRoundTrip(hdr.remLen);
    var field := EncodeLength(hdr.remLen);
    var f := [hdr.FirstOctet()] + field + hdr.rem;
    assert f[1..|field| + 1] == field;
    assert IsFrameWith(f, |field|);
    FrameHeader(f, |field|, rest);
  }
}
