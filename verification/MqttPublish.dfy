/** PUBLISH: mqtt_publish_encode and mqtt_publish_decode (src/mqtt.c:283-301, 486-508). */
module MqttPublish {
  import opened Bytes
  import opened Wrappers
  import opened OrderedMap
  import opened LinkedList
  import opened MqttFraming
  import opened MqttFields
  import opened TopicStores

  datatype Publication = Publication(name: Name, data: seq<byte>, retain: byte, qos: nat, msgId: word16) {
    predicate Valid() {
      0 < |name| < 0x1_0000 && |data| < 0x1_0000 && retain < 2 && qos < 4
    }
  }

  // ---------------------------------------------------------------- the encoder

  function MsgIdPart(p: Publication): seq<byte> {
    if p.qos > 0 then BigEndian16(p.msgId) else []
  }

  function Body(p: Publication): seq<byte>
    requires p.Valid()
  {
    Field(p.name) + (MsgIdPart(p) + p.data)
  }

  function HeaderOf(p: Publication): (hdr: FixedHeader)
    requires p.Valid()
    ensures hdr.Valid() && hdr.remLen == |hdr.rem| < MAX_LENGTH
  {
    FixedHeader(3, 0, p.qos, p.retain, |Body(p)|, Body(p))
  }

  method PublishEncode(p: Publication) returns (buf: array<byte>)
    requires p.Valid()
    ensures buf[..] == Packet(HeaderOf(p))
  {
    var msgIdLen := if p.qos > 0 then 2 else 0;
    var rem := new byte[2 + |p.name| + msgIdLen + |p.data|](_ => 0);
    var at := Copy(rem, 0, BigEndian16(|p.name|));
    at := Copy(rem, at, p.name);
    assert rem[..at] == Field(p.name);
    if p.qos > 0 {
      at := Copy(rem, at, BigEndian16(p.msgId));
    }
    at := Copy(rem, at, p.data);
    assert rem[..] == rem[..at] == Body(p);
    var hdr := FixedHeader(3, 0, p.qos, p.retain, rem.Length, rem[..]);
    buf := PacketEncode(hdr);
  }

  // ---------------------------------------------------------------- the decoder

  /** What is stored and answered, or how decoding ends. */
  datatype Decoded = Stored(name: Name, data: seq<byte>, retain: byte, msgId: word16) | Fails(outcome: Outcome)

  /** The message id is the old one unless the packet brings one. */
  function DecodePublish(hdr: FixedHeader, msgId: word16): Decoded
    requires hdr.Valid()
  {
    match StringAt(hdr.rem, 0)
    case None => Fails(ReadsPast)
    case Some(name) =>
      if name == [] then Fails(AssertFails)
      else
        var msgIdLen := if hdr.qos > 0 then 2 else 0;
        var at := 2 + |name| + msgIdLen;
        var dataLen := (hdr.remLen - |name| - 2 - msgIdLen) % 0x1_0000;
        if at + dataLen > |hdr.rem| then Fails(ReadsPast)
        else Stored(name, hdr.rem[at..at + dataLen], if dataLen == 0 then 0 else hdr.retain,
                    if hdr.qos > 0 then ReadBigEndian16(hdr.rem[at - 2..at]) else msgId)
  }

  /** Where name and data lie, or why they cannot be taken. */
  method Locate(hdr: FixedHeader, ghost msgId: word16) returns (fails: bool, outcome: Outcome, at: nat, nameLen: nat, dataLen: nat)
    requires hdr.Valid()
    ensures match DecodePublish(hdr, msgId)
      case Fails(o) => fails && outcome == o
      case Stored(name, data, retain, id) =>
        && !fails && 0 < nameLen && 2 + nameLen <= at && at + dataLen <= |hdr.rem|
        && name == hdr.rem[2..2 + nameLen] && data == hdr.rem[at..at + dataLen]
        && retain == (if dataLen == 0 then 0 else hdr.retain)
        && id == if hdr.qos > 0 then ReadBigEndian16(hdr.rem[at - 2..at]) else msgId
  {
    at, nameLen, dataLen := 0, 0, 0;
    if |hdr.rem| < 2 {
      return true, ReadsPast, at, nameLen, dataLen;
    }
    nameLen := ReadBigEndian16(hdr.rem[0..2]);
    if 2 + nameLen > |hdr.rem| {
      return true, ReadsPast, at, nameLen, dataLen;
    }
    if nameLen == 0 {
      return true, AssertFails, at, nameLen, dataLen;
    }
    var msgIdLen := if hdr.qos > 0 then 2 else 0;
    dataLen := (hdr.remLen - nameLen - 2 - msgIdLen) % 0x1_0000;
    at := 2 + nameLen + msgIdLen;
    fails, outcome := at + dataLen > |hdr.rem|, ReadsPast;
  }

  class PublishHeader {
    var msgId: word16
    var qos: nat
    var pubs: List<Name, Pub>

    constructor (pubs: List<Name, Pub>)
      ensures this.pubs == pubs && msgId == 0
    {
      msgId, qos, this.pubs := 0, 0, pubs;
    }

    /** mqtt_publish_decode: the publication goes into the list, the message id and QoS into the header. */
    method Decode(hdr: FixedHeader) returns (fails: bool, outcome: Outcome)
      requires hdr.Valid() && pubs.Valid() && this !in pubs.Repr
      modifies this, pubs.Repr
      ensures pubs == old(pubs) && pubs.Valid() && fresh(pubs.Repr - old(pubs.Repr))
      ensures match DecodePublish(hdr, old(msgId))
        case Fails(o) => fails && outcome == o && pubs.contents == old(pubs.contents)
        case Stored(name, data, retain, id) =>
          && !fails && msgId == id && qos == hdr.qos
          && pubs.contents == Step(old(pubs.contents), Update(name, WithData(data, retain)))
    {
      var at, nameLen, dataLen;
      fails, outcome, at, nameLen, dataLen := Locate(hdr, msgId);
      if !fails {
        var name, data := hdr.rem[2..2 + nameLen], hdr.rem[at..at + dataLen];
        var _ := PubAddReplace(pubs, name, data, if dataLen == 0 then 0 else hdr.retain);
        if hdr.qos > 0 {
          msgId := ReadBigEndian16(hdr.rem[at - 2..at]);
        }
        qos := hdr.qos;
      }
    }
  }

  // ---------------------------------------------------------------- round trips

  lemma BodyReads(p: Publication, rest: seq<byte>)
    requires p.Valid()
    ensures
      var mem := Body(p) + rest;
      var at := 2 + |p.name| + |MsgIdPart(p)|;
      && StringAt(mem, 0) == Some(p.name)
      && at + |p.data| <= |mem| && mem[at..at + |p.data|] == p.data
      && (p.qos > 0 ==> mem[at - 2..at] == BigEndian16(p.msgId))
  {
    var mem, at, rear := Body(p) + rest, 2 + |p.name|, MsgIdPart(p) + p.data + rest;
    assert mem[0..] == mem == Field(p.name) + rear;
    FieldReads(mem, 0, p.name, rear);
    if p.qos > 0 {
      assert mem[at..at + 2] == mem[at..][..2] == rear[..2] == BigEndian16(p.msgId);
      assert mem[at + 2..at + 2 + |p.data|] == mem[at..][2..2 + |p.data|] == p.data;
    } else {
      assert mem[at..at + |p.data|] == mem[at..][..|p.data|] == p.data;
    }
  }

  /** Decoding what was encoded: name and data as they were, retain only with data, the message id above QoS 0. */
  lemma PublishReads(p: Publication, rest: seq<byte>, msgId: word16)
    requires p.Valid()
    ensures DecodePublish(HeaderOf(p).(rem := Body(p) + rest), msgId) ==
            Stored(p.name, p.data, if p.data == [] then 0 else p.retain, if p.qos > 0 then p.msgId else msgId)
  {
    BodyReads(p, rest);
  }

  /**
   * Over the wire: the encoded packet is one frame; whatever header is decoded from it, in front of any
   * octets, brings QoS and retain back; and decoding the publication under that header stores it and leaves
   * every other topic alone.
   */
  lemma PublishRoundTrip(p: Publication, rest: seq<byte>, hdr: FixedHeader, msgId: word16, pubs: seq<Entry<Name, Pub>>, other: Name)
    requires p.Valid() && UniqueKeys(pubs) && other != p.name && DecodesTo(Packet(HeaderOf(p)) + rest, hdr)
    ensures IsFrame(Packet(HeaderOf(p))) && hdr.msgType == 3 && hdr.dup == 0 && hdr.qos == p.qos && hdr.retain == p.retain
    ensures DecodePublish(hdr, msgId) ==
            Stored(p.name, p.data, if p.data == [] then 0 else p.retain, if p.qos > 0 then p.msgId else msgId)
    ensures
      var after := Step(pubs, Update(p.name, WithData(p.data, if p.data == [] then 0 else p.retain)));
      && UniqueKeys(after)
      && Lookup(after, other) == Lookup(pubs, other)
      && Lookup(after, p.name).Some? && Lookup(after, p.name).value.data == p.data
      && Lookup(after, p.name).value.retain == (if p.data == [] then 0 else p.retain)
  {
    EncodedIsFrame(HeaderOf(p), rest);
    EncodedDecodes(HeaderOf(p), rest, hdr);
    PublishReads(p, rest, msgId);
    var op := Update(p.name, WithData(p.data, if p.data == [] then 0 else p.retain));
    StepRefines(pubs, op);
    LookupPut(pubs, p.name, op.f(Lookup(pubs, p.name)), other);
    LookupPut(pubs, p.name, op.f(Lookup(pubs, p.name)), p.name);
  }

  /**
   * The data length is kept in 16 bits: of a longer payload only the length modulo 65536 is stored, so
   * the stored data is the payload exactly if that is shorter than 65536 octets.
   */
  lemma LongPayload(hdr: FixedHeader, name: Name, id: seq<byte>, payload: seq<byte>, msgId: word16)
    requires hdr.Valid() && 0 < |name| < 0x1_0000 && |id| == if hdr.qos > 0 then 2 else 0
    requires hdr.remLen == |hdr.rem| && hdr.rem == Field(name) + (id + payload)
    ensures
      var d := DecodePublish(hdr, msgId);
      && d.Stored? && d.name == name && d.data == payload[..|payload| % 0x1_0000]
      && (d.data == payload <==> |payload| < 0x1_0000)
  {
    assert hdr.rem[0..] == hdr.rem;
    FieldReads(hdr.rem, 0, name, id + payload);
    var at := 2 + |name| + |id|;
    assert hdr.rem[at..] == payload;
    assert hdr.rem[at..at + |payload| % 0x1_0000] == payload[..|payload| % 0x1_0000];
  }
}
