/** The octets of whole packets, and examples that MQTT 3.1.1 itself gives. */
module MqttExamples {
  import opened Bytes
  import F = MqttFraming
  import C = MqttConnect
  import P = MqttPublish
  import S = MqttSubscribe
  import opened MqttFields
  import opened TopicMatch

  function Ascii(c: char): byte {
    if c as int < 128 then c as int else 0
  }

  /** The octets of a text. */
  function Octets(s: string): (bs: seq<byte>)
    ensures |bs| == |s|
  {
    seq(|s|, i requires 0 <= i < |s| => Ascii(s[i]))
  }

  // ---------------------------------------------------------------- remaining lengths

  /** Section 2.2.3: 321 is 65 + 2 * 128; and the ends of the ranges in table 2.4. */
  lemma LengthExamples()
    ensures F.EncodeLength(64) == [0x40] && F.EncodeLength(321) == [193, 2]
    ensures F.EncodeLength(0) == [0x00] && F.EncodeLength(127) == [0x7F]
    ensures F.EncodeLength(128) == [0x80, 0x01] && F.EncodeLength(16_383) == [0xFF, 0x7F]
    ensures F.EncodeLength(16_384) == [0x80, 0x80, 0x01] && F.EncodeLength(2_097_151) == [0xFF, 0xFF, 0x7F]
    ensures F.EncodeLength(2_097_152) == [0x80, 0x80, 0x80, 0x01] && F.EncodeLength(268_435_455) == [0xFF, 0xFF, 0xFF, 0x7F]
  {
  }

  // ---------------------------------------------------------------- packets

  /** A CONNECT of MQTT 3.1 with all its fields. */
  lemma ConnectExample()
    ensures
      var c := C.Connect(C.Flags(1, 1, 1, 0, 1, 1), 60, Octets("id"), Octets("wt"), Octets("wm"), Octets("un"), Octets("pw"), 0);
      C.WellFormed(c) && C.Body(c) ==
        [0, 6] + Octets("MQIsdp") + [3, 0xCE, 0, 60, 0, 2] + Octets("id") + [0, 2] + Octets("wt") + [0, 2] + Octets("wm")
        + [0, 2] + Octets("un") + [0, 2] + Octets("pw")
  {
  }

  /** Table 3.1: accepted, unacceptable protocol version, identifier rejected, bad user name or password. */
  lemma ReturnCodes()
    ensures C.ACCEPTED == Answer(0) && C.REFUSED_PROTOCOL_VERSION == Answer(1)
    ensures C.REFUSED_IDENTIFIER == Answer(2) && C.REFUSED_USER_PASSWORD == Answer(4)
  {
  }

  lemma Protocol311()
    ensures C.PROTOCOL_311 == [0, 4] + Octets("MQTT") + [4]
  {
  }

  /** Section 3.3.2.3: the name a/b and the packet identifier 10. */
  lemma PublishExample(data: seq<byte>)
    requires |data| < 0x1_0000
    ensures
      var p := P.Publication(Octets("a/b"), data, 1, 1, 10);
      && p.Valid() && P.HeaderOf(p).FirstOctet() == 0x33 && P.Body(p) == [0, 3] + Octets("a/b") + [0, 10] + data
      && P.Publication(Octets("/"), data, 0, 0, 0).Valid()
  {
  }

  /** Section 3.8.3: the filters a/b with QoS 1 and c/d with QoS 2. */
  lemma SubscribeExample()
    ensures
      var rs := [S.Request(Octets("a/b"), 1), S.Request(Octets("c/d"), 2)];
      S.AreRequests(rs, true) && S.Payload(rs, true) == [0, 3] + Octets("a/b") + [1, 0, 3] + Octets("c/d") + [2]
  {
  }

  // ---------------------------------------------------------------- topics

  /** Sections 4.7.1.1 to 4.7.1.3: the separator and the two wildcards. */
  lemma TopicCharacters()
    ensures [SLASH, PLUS, HASH] == Octets("/+#")
  {
  }

  /** Section 4.7.1.3: /finance is taken by +/+ and /+ but not by +. */
  lemma PlusExamples()
    ensures
      var topic := Levels(Octets("/finance"));
      && LevelsMatch(Levels(Octets("+/+")), topic) && LevelsMatch(Levels(Octets("/+")), topic)
      && !LevelsMatch(Levels(Octets("+")), topic)
  {
    TwoLevels([], Octets("finance"), Octets("/finance"));
    TwoLevels([PLUS], [PLUS], Octets("+/+"));
    TwoLevels([], [PLUS], Octets("/+"));
    LevelsFrom([[PLUS]]);
    assert Octets("+") == Joined([[PLUS]]);
  }

  lemma TwoLevels(a: seq<byte>, b: seq<byte>, v: seq<byte>)
    requires SLASH !in a && SLASH !in b && v == a + [SLASH] + b
    ensures Levels(v) == [a, b]
  {
    LevelsFrom([a, b]);
  }
}
