/** UTF-8 (RFC 3629, section 3) and the character counter of src/utf8.c. */
module Utf8 {
  import opened Bytes

  type codepoint = u: int | 0 <= u < 0x11_0000

  /** Unicode scalar values: the code points without the surrogates. */
  predicate IsScalar(u: codepoint) {
    u < 0xD800 || 0xE000 <= u
  }

  /** The octet sequence of one code point, by the table in section 3 of RFC 3629. */
  function Encode(u: codepoint): (bs: seq<byte>)
    ensures 1 <= |bs| <= 4
    ensures bs[0] / 64 != 2 && forall i :: 1 <= i < |bs| ==> bs[i] / 64 == 2
  {
    if u < 0x80 then [u]
    else if u < 0x800 then [0xC0 + u / 0x40, 0x80 + u % 0x40]
    else if u < 0x1_0000 then [0xE0 + u / 0x1000, 0x80 + u / 0x40 % 0x40, 0x80 + u % 0x40]
    else [0xF0 + u / 0x4_0000, 0x80 + u / 0x1000 % 0x40, 0x80 + u / 0x40 % 0x40, 0x80 + u % 0x40]
  }

  function Above(b: byte, least: nat): int {
    b as int - least
  }

  /** The table in section 3 of RFC 3629 read from the octets: the first one tells how many there are. */
  lemma EncodedBits(u: codepoint)
    ensures
      var bs := Encode(u);
      && (forall i :: 1 <= i < |bs| ==> 0x80 <= bs[i] < 0xC0)
      && (bs[0] < 0x80 ==> |bs| == 1 && u == bs[0])
      && (bs[0] >= 0x80 ==> 0xC0 <= bs[0] < 0xF8)
      && (0xC0 <= bs[0] < 0xE0 ==> |bs| == 2 && u == Above(bs[0], 0xC0) * 0x40 + Above(bs[1], 0x80) >= 0x80)
      && (0xE0 <= bs[0] < 0xF0 ==>
            && |bs| == 3 && u >= 0x800
            && u == (Above(bs[0], 0xE0) * 0x40 + Above(bs[1], 0x80)) * 0x40 + Above(bs[2], 0x80))
      && (0xF0 <= bs[0] < 0xF8 ==>
            && |bs| == 4 && u >= 0x1_0000
            && u == ((Above(bs[0], 0xF0) * 0x40 + Above(bs[1], 0x80)) * 0x40 + Above(bs[2], 0x80)) * 0x40 + Above(bs[3], 0x80))
  {
    assert u / 0x40 / 0x40 == u / 0x1000 && u / 0x1000 / 0x40 == u / 0x4_0000;
  }

  function EncodeAll(us: seq<codepoint>): seq<byte> {
    if us == [] then [] else EncodeAll(us[..|us| - 1]) + Encode(us[|us| - 1])
  }

  /** Octets that start a character: all but 10xxxxxx. */
  function Starters(s: seq<byte>): nat {
    if s == [] then 0
    else Starters(s[..|s| - 1]) + if s[|s| - 1] / 64 != 2 then 1 else 0
  }

  method StrLen(utf8str: seq<byte>, size: nat) returns (charCnt: nat)
    requires size <= |utf8str|
    ensures charCnt == Starters(utf8str[..size])
  {
    var byteCnt := 0;
    charCnt := 0;
    while byteCnt < size
      invariant byteCnt <= size && charCnt == Starters(utf8str[..byteCnt])
    {
      assert utf8str[..byteCnt + 1][..byteCnt] == utf8str[..byteCnt];
      if utf8str[byteCnt] / 64 != 2 {
        charCnt := charCnt + 1;
      }
      byteCnt := byteCnt + 1;
    }
  }

  lemma {:induction false} StartersOfTail(s: seq<byte>, t: seq<byte>)
    requires forall i :: 0 <= i < |t| ==> t[i] / 64 == 2
    ensures Starters(s + t) == Starters(s)
  {
    if t == [] {
      assert s + t == s;
    } else {
      assert (s + t)[..|s + t| - 1] == s + t[..|t| - 1];
      StartersOfTail(s, t[..|t| - 1]);
    }
  }

  /** utf8_strlen of the UTF-8 form of any code points is how many there are. */
  lemma {:induction false} StartersCountScalars(us: seq<codepoint>)
    ensures Starters(EncodeAll(us)) == |us|
  {
    if us != [] {
      var front, bs := EncodeAll(us[..|us| - 1]), Encode(us[|us| - 1]);
      StartersCountScalars(us[..|us| - 1]);
      assert front + bs == (front + [bs[0]]) + bs[1..];
      StartersOfTail(front + [bs[0]], bs[1..]);
      assert (front + [bs[0]])[..|front|] == front;
    }
  }
}
