/** CONNECT: mqtt_connect_encode and mqtt_connect_decode (src/mqtt.c:117-215, 344-421). */
module MqttConnect {
  import opened Bytes
  import opened Wrappers
  import opened OrderedMap
  import opened LinkedList
  import opened MqttFraming
  import opened MqttFields
  import Utf8

  datatype Flags = Flags(cleanSession: nat, will: nat, willQos: nat, willRetain: nat, password: nat, userName: nat) {
    predicate Valid() {
      cleanSession < 2 && will < 2 && willQos < 4 && willRetain < 2 && password < 2 && userName < 2
    }

    function Octet(): byte
      requires Valid()
    {
      cleanSession * 2 + will * 4 + willQos * 8 + willRetain * 32 + password * 64 + userName * 128
    }
  }

  /** The masks and shifts, each quotient from the one before. */
  function FlagsOf(b: byte): Flags {
    var q1: nat := b / 2;
    var q2 := q1 / 2;
    var q3 := q2 / 2;
    var q4 := q3 / 4;
    var q5 := q4 / 2;
    Flags(q1 % 2, q2 % 2, q3 % 4, q4 % 2, q5 % 2, q5 / 2)
  }

  /** All eight bits but the reserved lowest one. */
  lemma FlagsOfOctet(b: byte)
    ensures FlagsOf(b).Valid() && FlagsOf(b).Octet() == b - b % 2
  {
    var q1: nat := b / 2;
    var q2 := q1 / 2;
    var q3 := q2 / 2;
    var q4 := q3 / 4;
    var q5 := q4 / 2;
    assert q1 < 128 && q2 < 64 && q3 < 32 && q4 < 8 && q5 < 4;
    assert q3 == q3 % 4 + 4 * q4 && q2 == q2 % 2 + 2 * q3 && q1 == q1 % 2 + 2 * q2;
  }

  lemma FlagsRoundTrip(f: Flags)
    requires f.Valid()
    ensures FlagsOf(f.Octet()) == f
  {
    var q5 := f.password + 2 * f.userName;
    var q4 := f.willRetain + 2 * q5;
    var q3 := f.willQos + 4 * q4;
    var q2 := f.will + 2 * q3;
    var q1 := f.cleanSession + 2 * q2;
    assert f.Octet() / 2 == q1 && q1 / 2 == q2 && q2 / 2 == q3 && q3 / 4 == q4 && q4 / 2 == q5;
  }

  /** Figure 3.4 of section 3.1.2.3: the flags from bit 7 down to bit 1, and bit 0, which is reserved, clear. */
  predicate HasFlagBits(b: byte, f: Flags) {
    && f.userName == b / 128 && f.password == b / 64 % 2 && f.willRetain == b / 32 % 2
    && f.willQos == b / 8 % 4 && f.will == b / 4 % 2 && f.cleanSession == b / 2 % 2
  }

  lemma FlagBits(f: Flags)
    requires f.Valid()
    ensures HasFlagBits(f.Octet(), f) && f.Octet() % 2 == 0
  {
    var q5 := f.password + 2 * f.userName;
    var q4 := f.willRetain + 2 * q5;
    var q3 := f.willQos + 4 * q4;
    var q2 := f.will + 2 * q3;
    var q1 := f.cleanSession + 2 * q2;
    var b: nat := f.Octet();
    assert b == 2 * q1 && b / 2 == q1 && b / 4 == q2 && b / 8 == q3 && b / 32 == q4 && b / 64 == q5;
  }

  lemma FlagsOfBits(b: byte)
    ensures HasFlagBits(b, FlagsOf(b))
  {
    assert b / 2 / 2 == b / 4 && b / 4 / 2 == b / 8 && b / 8 / 4 == b / 32 && b / 32 / 2 == b / 64 && b / 64 / 2 == b / 128;
  }

  /** The connect header; a length of 0 is an empty string. */
  datatype Connect = Connect(flags: Flags, keepAlive: word16, clientId: seq<byte>, willTopic: seq<byte>,
                             willMessage: seq<byte>, userName: seq<byte>, password: seq<byte>, publishEnable: nat)

  const ZEROED := Connect(Flags(0, 0, 0, 0, 0, 0), 0, [], [], [], [], [], 0)

  /** The lengths are 16 bits wide. */
  predicate LengthsFit(c: Connect) {
    && |c.clientId| < 0x1_0000 && |c.willTopic| < 0x1_0000 && |c.willMessage| < 0x1_0000
    && |c.userName| < 0x1_0000 && |c.password| < 0x1_0000
  }

  datatype Credentials = Credentials(userName: seq<byte>, password: seq<byte>)

  type Users = List<Credentials, nat>

  // ---------------------------------------------------------------- the encoder

  const PROTOCOL_31: seq<byte> := [0x00, 0x06, 0x4D, 0x51, 0x49, 0x73, 0x64, 0x70, 0x03]
  const PROTOCOL_311: seq<byte> := [0x00, 0x04, 0x4D, 0x51, 0x54, 0x54, 0x04]

  function OptionalField(flag: bool, s: seq<byte>): seq<byte>
    requires |s| < 0x1_0000
  {
    if flag && s != [] then Field(s) else []
  }

  function FixedPart(c: Connect): (bs: seq<byte>)
    requires c.flags.Valid()
    ensures |bs| == 12
  {
    PROTOCOL_31 + [c.flags.Octet()] + BigEndian16(c.keepAlive)
  }

  function FieldSize(flag: bool, s: seq<byte>): (n: nat)
    requires |s| < 0x1_0000
    ensures n == |OptionalField(flag, s)|
  {
    if flag && s != [] then 2 + |s| else 0
  }

  /** The fields of the payload, each in front of those that follow. */
  function PasswordPart(c: Connect): seq<byte>
    requires LengthsFit(c)
  {
    OptionalField(c.flags.password != 0, c.password)
  }

  function UserPart(c: Connect): seq<byte>
    requires LengthsFit(c)
  {
    OptionalField(c.flags.userName != 0, c.userName) + PasswordPart(c)
  }

  function MessagePart(c: Connect): seq<byte>
    requires LengthsFit(c)
  {
    OptionalField(c.flags.will != 0, c.willMessage) + UserPart(c)
  }

  function WillPart(c: Connect): seq<byte>
    requires LengthsFit(c)
  {
    OptionalField(c.flags.will != 0, c.willTopic) + MessagePart(c)
  }

  function Payload(c: Connect): seq<byte>
    requires LengthsFit(c)
  {
    OptionalField(true, c.clientId) + WillPart(c)
  }

  function Body(c: Connect): seq<byte>
    requires c.flags.Valid() && LengthsFit(c)
  {
    FixedPart(c) + Payload(c)
  }

  /** One field written behind the cursor, if it is there. */
  method PutField(rem: array<byte>, at: nat, flag: bool, s: seq<byte>) returns (next: nat)
    requires |s| < 0x1_0000 && at + FieldSize(flag, s) <= rem.Length
    modifies rem
    ensures next == at + FieldSize(flag, s)
    ensures rem[..next] == old(rem[..at]) + OptionalField(flag, s)
  {
    next := at;
    if flag && s != [] {
      next := Copy(rem, next, BigEndian16(|s|));
      next := Copy(rem, next, s);
      assert old(rem[..at]) + BigEndian16(|s|) + s == old(rem[..at]) + Field(s);
    }
  }

  lemma Regroup(a: seq<byte>, b: seq<byte>, c: seq<byte>, d: seq<byte>, e: seq<byte>, f: seq<byte>)
    ensures a + b + c + d + e + f == a + (b + (c + (d + (e + f))))
  {
  }

  function BodySize(c: Connect): (n: nat)
    requires c.flags.Valid() && LengthsFit(c)
    ensures n == |Body(c)|
  {
    9 + 1 + 2 + FieldSize(true, c.clientId)
    + FieldSize(c.flags.will != 0, c.willTopic) + FieldSize(c.flags.will != 0, c.willMessage)
    + FieldSize(c.flags.userName != 0, c.userName) + FieldSize(c.flags.password != 0, c.password)
  }

  function HeaderOf(c: Connect): (hdr: FixedHeader)
    requires c.flags.Valid() && LengthsFit(c)
    ensures hdr.Valid() && hdr.remLen == |hdr.rem| < MAX_LENGTH
  {
    assert |Body(c)| == BodySize(c);
    FixedHeader(1, 0, 0, 0, |Body(c)|, Body(c))
  }

  method WriteBody(rem: array<byte>, c: Connect)
    requires c.flags.Valid() && LengthsFit(c) && rem.Length == BodySize(c)
    modifies rem
    ensures rem[..] == Body(c)
  {
    var at := Copy(rem, 0, FixedPart(c));
    assert rem[..at] == FixedPart(c);
    at := PutField(rem, at, true, c.clientId);
    at := PutField(rem, at, c.flags.will != 0, c.willTopic);
    at := PutField(rem, at, c.flags.will != 0, c.willMessage);
    at := PutField(rem, at, c.flags.userName != 0, c.userName);
    at := PutField(rem, at, c.flags.password != 0, c.password);
    Regroup(FixedPart(c), OptionalField(true, c.clientId), OptionalField(c.flags.will != 0, c.willTopic),
            OptionalField(c.flags.will != 0, c.willMessage), OptionalField(c.flags.userName != 0, c.userName),
            PasswordPart(c));
    assert rem[..at] == rem[..];
  }

  /** mqtt_connect_encode: the size is added up first, then the fields are written one behind the other. */
  method ConnectEncode(c: Connect) returns (buf: array<byte>)
    requires c.flags.Valid() && LengthsFit(c)
    ensures buf[..] == Packet(HeaderOf(c))
  {
    var remLen := BodySize(c);
    var rem := new byte[remLen](_ => 0);
    WriteBody(rem, c);
    var hdr := FixedHeader(1, 0, 0, 0, remLen, rem[..]);
    buf := PacketEncode(hdr);
  }

  // ---------------------------------------------------------------- the decoder

  const ACCEPTED := Answer(0)
  const REFUSED_PROTOCOL_VERSION := Answer(1)
  const REFUSED_IDENTIFIER := Answer(2)
  const REFUSED_USER_PASSWORD := Answer(4)

  /** Where decoding stands: what is in the header and the cursor, or how it ended. */
  datatype Progress = Going(c: Connect, len: nat) | Ended(c: Connect, outcome: Outcome)

  datatype Piece = Piece(s: seq<byte>) | Bad(outcome: Outcome)

  /** A string that is asserted not to be empty. */
  function PieceAt(mem: seq<byte>, at: nat): Piece {
    match StringAt(mem, at)
    case None => Bad(ReadsPast)
    case Some(s) => if s == [] then Bad(AssertFails) else Piece(s)
  }

  function ReadFixed(mem: seq<byte>, remLen: nat, c: Connect): Progress {
    if |mem| < 7 then Ended(c, ReadsPast)
    else if mem[..7] == PROTOCOL_311 then ReadIdentity(mem, remLen, c, 7)
    else if |mem| < 9 then Ended(c, ReadsPast)
    else if mem[..9] == PROTOCOL_31 then ReadIdentity(mem, remLen, c, 9)
    else Ended(c, REFUSED_PROTOCOL_VERSION)
  }

  function ReadIdentity(mem: seq<byte>, remLen: nat, c: Connect, cnt: nat): Progress {
    if cnt + 5 > |mem| then Ended(c, ReadsPast)
    else
      var c1 := c.(flags := FlagsOf(mem[cnt]), keepAlive := ReadBigEndian16(mem[cnt + 1..cnt + 3]), clientId := []);
      match StringAt(mem, cnt + 3)
      case None => Ended(c1, ReadsPast)
      case Some(id) =>
        if id == [] then Ended(c1, REFUSED_IDENTIFIER)
        else if Utf8.Starters(id) > 23 then Ended(c1.(clientId := id), REFUSED_IDENTIFIER)
        else if cnt + 5 + |id| > remLen then Ended(c1.(clientId := id), AssertFails)
        else Going(c1.(clientId := id), cnt + 5 + |id|)
  }

  function ReadWillTopic(mem: seq<byte>, p: Progress): Progress {
    if p.Ended? || p.c.flags.will != 1 then p
    else match PieceAt(mem, p.len)
      case Bad(outcome) => Ended(p.c, outcome)
      case Piece(s) => Going(p.c.(willTopic := s), p.len + 2 + |s|)
  }

  function ReadWillMessage(mem: seq<byte>, p: Progress): Progress {
    if p.Ended? || p.c.flags.will != 1 then p
    else match PieceAt(mem, p.len)
      case Bad(outcome) => Ended(p.c, outcome)
      case Piece(s) => Going(p.c.(willMessage := s), p.len + 2 + |s|)
  }

  function ReadUserName(mem: seq<byte>, remLen: nat, p: Progress): Progress {
    if p.Ended? || p.c.flags.userName != 1 || p.len >= remLen then p
    else match PieceAt(mem, p.len)
      case Bad(outcome) => Ended(p.c, outcome)
      case Piece(s) => Going(p.c.(userName := s), p.len + 2 + |s|)
  }

  function ReadPassword(mem: seq<byte>, remLen: nat, p: Progress): Progress {
    if p.Ended? || p.c.flags.password != 1 || p.len >= remLen then p
    else match PieceAt(mem, p.len)
      case Bad(outcome) => Ended(p.c, outcome)
      case Piece(s) => Going(p.c.(password := s), p.len + 2 + |s|)
  }

  /** With a list of users the pair must be in it; the assertion about the length comes last. */
  function Admit(remLen: nat, users: seq<Entry<Credentials, nat>>, p: Progress): Progress {
    if p.Ended? then p
    else if users != [] && (p.c.userName == [] || p.c.password == []) then Ended(p.c, REFUSED_USER_PASSWORD)
    else
      var found := Lookup(users, Credentials(p.c.userName, p.c.password));
      if users != [] && found.None? then Ended(p.c, REFUSED_USER_PASSWORD)
      else
        var c := p.c.(publishEnable := if users == [] then 1 else found.value);
        Ended(c, if p.len == remLen then ACCEPTED else AssertFails)
  }

  function ReadOptional(mem: seq<byte>, remLen: nat, p: Progress): Progress {
    ReadPassword(mem, remLen, ReadUserName(mem, remLen, ReadWillMessage(mem, ReadWillTopic(mem, p))))
  }

  function DecodeConnect(mem: seq<byte>, remLen: nat, users: seq<Entry<Credentials, nat>>, c: Connect): (r: Progress)
    ensures r.Ended?
  {
    Admit(remLen, users, ReadOptional(mem, remLen, ReadFixed(mem, remLen, c)))
  }

  // ---------------------------------------------------------------- what was encoded is decoded

  /**
   * A will has a topic and a message, and nothing else has. A credential needs its flag, but a flag may stand
   * without one, unless it is that of the user name and a password follows, which would be taken for the name.
   */
  predicate WellFormed(c: Connect) {
    && c.flags.Valid() && LengthsFit(c)
    && c.clientId != [] && Utf8.Starters(c.clientId) <= 23
    && WillFits(c) && CredentialsFit(c)
  }

  predicate WillFits(c: Connect) {
    (c.flags.will == 1 <==> c.willTopic != []) && (c.flags.will == 1 <==> c.willMessage != [])
  }

  predicate CredentialsFit(c: Connect) {
    && (c.userName != [] ==> c.flags.userName == 1) && (c.password != [] ==> c.flags.password == 1)
    && (c.flags.userName == 1 && c.userName == [] ==> c.password == [])
  }

  lemma FixedReads(c: Connect, mem: seq<byte>, remLen: nat, rest: seq<byte>)
    requires WellFormed(c) && mem == FixedPart(c) + (Field(c.clientId) + rest) && 14 + |c.clientId| <= remLen
    ensures ReadFixed(mem, remLen, ZEROED) ==
            Going(Identified(c), 14 + |c.clientId|)
    ensures mem[14 + |c.clientId|..] == rest
  {
    var fixed := FixedPart(c);
    assert mem[..9] == fixed[..9] == PROTOCOL_31 && mem[1] == 6;
    assert mem[..7][1] == 6;
    assert mem[9] == fixed[9] == c.flags.Octet();
    assert mem[10..12] == fixed[10..12] == BigEndian16(c.keepAlive);
    assert mem[12..] == Field(c.clientId) + rest;
    FlagsRoundTrip(c.flags);
    FieldReads(mem, 12, c.clientId, rest);
  }

  lemma PartReads(mem: seq<byte>, at: nat, flag: bool, s: seq<byte>, rest: seq<byte>)
    requires at <= |mem| && |s| < 0x1_0000 && mem[at..] == OptionalField(flag, s) + rest
    ensures flag && s != [] ==> PieceAt(mem, at) == Piece(s) && at + 2 + |s| <= |mem| && mem[at + 2 + |s|..] == rest
    ensures !(flag && s != []) ==> mem[at..] == rest
  {
    if flag && s != [] {
      FieldReads(mem, at, s, rest);
    }
  }

  lemma WillTopicReads(c: Connect, d: Connect, mem: seq<byte>, len: nat, rest: seq<byte>)
    requires c.flags.Valid() && LengthsFit(c) && WillFits(c)
    requires d.flags == c.flags && len <= |mem| && mem[len..] == WillPart(c) + rest && d.willTopic == []
    ensures
      var next := len + FieldSize(c.flags.will != 0, c.willTopic);
      && ReadWillTopic(mem, Going(d, len)) == Going(d.(willTopic := c.willTopic), next)
      && next <= |mem| && mem[next..] == MessagePart(c) + rest
  {
    var flag := c.flags.will != 0;
    Associative(OptionalField(flag, c.willTopic), MessagePart(c), rest);
    PartReads(mem, len, flag, c.willTopic, MessagePart(c) + rest);
  }

  lemma WillMessageReads(c: Connect, d: Connect, mem: seq<byte>, len: nat, rest: seq<byte>)
    requires c.flags.Valid() && LengthsFit(c) && WillFits(c)
    requires d.flags == c.flags && len <= |mem| && mem[len..] == MessagePart(c) + rest && d.willMessage == []
    ensures
      var next := len + FieldSize(c.flags.will != 0, c.willMessage);
      && ReadWillMessage(mem, Going(d, len)) == Going(d.(willMessage := c.willMessage), next)
      && next <= |mem| && mem[next..] == UserPart(c) + rest
  {
    var flag := c.flags.will != 0;
    Associative(OptionalField(flag, c.willMessage), UserPart(c), rest);
    PartReads(mem, len, flag, c.willMessage, UserPart(c) + rest);
  }

  lemma UserNameReads(c: Connect, d: Connect, mem: seq<byte>, len: nat, remLen: nat, rest: seq<byte>)
    requires c.flags.Valid() && LengthsFit(c) && CredentialsFit(c)
    requires d.flags == c.flags && len <= |mem| && mem[len..] == UserPart(c) + rest && d.userName == []
    requires remLen == len + |UserPart(c)|
    ensures
      var next := len + FieldSize(c.flags.userName != 0, c.userName);
      && ReadUserName(mem, remLen, Going(d, len)) == Going(d.(userName := c.userName), next)
      && next <= |mem| && mem[next..] == PasswordPart(c) + rest && remLen == next + |PasswordPart(c)|
  {
    var flag := c.flags.userName != 0;
    Associative(OptionalField(flag, c.userName), PasswordPart(c), rest);
    PartReads(mem, len, flag, c.userName, PasswordPart(c) + rest);
  }

  lemma PasswordReads(c: Connect, d: Connect, mem: seq<byte>, len: nat, remLen: nat, rest: seq<byte>)
    requires c.flags.Valid() && LengthsFit(c) && CredentialsFit(c)
    requires d.flags == c.flags && len <= |mem| && mem[len..] == PasswordPart(c) + rest && d.password == []
    requires remLen == len + |PasswordPart(c)|
    ensures ReadPassword(mem, remLen, Going(d, len)) == Going(d.(password := c.password), remLen)
  {
    PartReads(mem, len, c.flags.password != 0, c.password, rest);
  }

  function Identified(c: Connect): Connect {
    ZEROED.(flags := c.flags, keepAlive := c.keepAlive, clientId := c.clientId)
  }

  lemma WillReads(c: Connect, mem: seq<byte>, len: nat, rest: seq<byte>)
    requires c.flags.Valid() && LengthsFit(c) && WillFits(c)
    requires len <= |mem| && mem[len..] == WillPart(c) + rest
    ensures
      var next := len + |WillPart(c)| - |UserPart(c)|;
      && ReadWillMessage(mem, ReadWillTopic(mem, Going(Identified(c), len))) ==
           Going(Identified(c).(willTopic := c.willTopic, willMessage := c.willMessage), next)
      && next <= |mem| && mem[next..] == UserPart(c) + rest
  {
    var d := Identified(c);
    var p := ReadWillTopic(mem, Going(d, len));
    WillTopicReads(c, d, mem, len, rest);
    WillMessageReads(c, p.c, mem, p.len, rest);
  }

  lemma CredentialsRead(c: Connect, d: Connect, mem: seq<byte>, len: nat, remLen: nat, rest: seq<byte>)
    requires c.flags.Valid() && LengthsFit(c) && CredentialsFit(c)
    requires d.flags == c.flags && len <= |mem| && mem[len..] == UserPart(c) + rest
    requires remLen == len + |UserPart(c)| && d.userName == d.password == []
    ensures ReadPassword(mem, remLen, ReadUserName(mem, remLen, Going(d, len))) ==
            Going(d.(userName := c.userName, password := c.password), remLen)
  {
    var p := ReadUserName(mem, remLen, Going(d, len));
    UserNameReads(c, d, mem, len, remLen, rest);
    PasswordReads(c, p.c, mem, p.len, remLen, rest);
  }

  lemma OptionalIs(mem: seq<byte>, remLen: nat, p: Progress, q: Progress)
    requires ReadWillMessage(mem, ReadWillTopic(mem, p)) == q
    ensures ReadOptional(mem, remLen, p) == ReadPassword(mem, remLen, ReadUserName(mem, remLen, q))
  {
  }

  lemma OptionalReads(c: Connect, mem: seq<byte>, len: nat, remLen: nat, rest: seq<byte>)
    requires WellFormed(c) && len <= |mem| && mem[len..] == WillPart(c) + rest && remLen == len + |WillPart(c)|
    ensures ReadOptional(mem, remLen, Going(Identified(c), len)) == Going(c.(publishEnable := 0), remLen)
  {
    var d := Identified(c).(willTopic := c.willTopic, willMessage := c.willMessage);
    var next := len + |WillPart(c)| - |UserPart(c)|;
    WillReads(c, mem, len, rest);
    CredentialsRead(c, d, mem, next, remLen, rest);
    OptionalIs(mem, remLen, Going(Identified(c), len), Going(d, next));
  }

  /** The header with which a client is let in, or refused with code 4. */
  function Admitted(c: Connect, users: seq<Entry<Credentials, nat>>): Progress {
    var found := Lookup(users, Credentials(c.userName, c.password));
    if users != [] && (c.userName == [] || c.password == [] || found.None?) then
      Ended(c.(publishEnable := 0), REFUSED_USER_PASSWORD)
    else Ended(c.(publishEnable := if users == [] then 1 else found.value), ACCEPTED)
  }

  /** Without users everybody is let in; with users exactly the pairs listed, each with its own flag, and others with code 4. */
  lemma Admission(c: Connect, users: seq<Entry<Credentials, nat>>)
    ensures
      var r, pair := Admitted(c, users), Credentials(c.userName, c.password);
      && (users == [] ==> r.outcome == Answer(0) && r.c.publishEnable == 1)
      && (users != [] ==>
            if c.userName != [] && c.password != [] && pair in Keys(users) then
              r.outcome == Answer(0) && Lookup(users, pair) == Some(r.c.publishEnable)
            else r.outcome == Answer(4))
  {
    LookupIsMembership(users, Credentials(c.userName, c.password));
  }

  /**
   * Another protocol is refused with code 1, a client id that is empty or too long with code 2, and one that
   * reaches behind the packet fails an assertion.
   */
  lemma Refusals(mem: seq<byte>, remLen: nat, users: seq<Entry<Credentials, nat>>)
    requires |mem| >= 14
    ensures
      var r, k, is311 := DecodeConnect(mem, remLen, users, ZEROED), ProtocolSize(mem), mem[..7] == PROTOCOL_311;
      if !is311 && mem[..9] != PROTOCOL_31 then r.outcome == Answer(1)
      else match StringAt(mem, k + 3)
        case None => r.outcome == ReadsPast
        case Some(id) =>
          && (id == [] || Utf8.Starters(id) > 23 ==> r.outcome == Answer(2))
          && (id != [] && Utf8.Starters(id) <= 23 && k + 5 + |id| > remLen ==> r.outcome == AssertFails)
  {
  }

  lemma WellFormedReads(c: Connect, users: seq<Entry<Credentials, nat>>, rest: seq<byte>)
    requires WellFormed(c)
    ensures DecodeConnect(Body(c) + rest, |Body(c)|, users, ZEROED) == Admitted(c, users)
  {
    var mem, remLen := Body(c) + rest, |Body(c)|;
    assert mem == FixedPart(c) + (Field(c.clientId) + (WillPart(c) + rest));
    FixedReads(c, mem, remLen, WillPart(c) + rest);
    OptionalReads(c, mem, 14 + |c.clientId|, remLen, rest);
  }

  /** Reading never leaves anything else behind, whatever it reads. */
  lemma ReadIsWellFormed(mem: seq<byte>, remLen: nat)
    requires ReadAll(mem, remLen).Going?
    ensures WellFormed(ReadAll(mem, remLen).c)
  {
    ReadIsEncoded(mem, remLen);
    var p := ReadFixed(mem, remLen, ZEROED);
    FixedIsIdentity(mem, remLen);
    var q := ReadWillMessage(mem, ReadWillTopic(mem, p));
    OptionalIs(mem, remLen, p, q);
    WillLeft(mem, p);
    CredentialsLeft(mem, remLen, q);
  }

  lemma WillLeft(mem: seq<byte>, p: Progress)
    requires p.Going? && p.c.flags.Valid() && p.c.willTopic == p.c.willMessage == []
    ensures
      var q := ReadWillMessage(mem, ReadWillTopic(mem, p));
      q.Going? ==>
        && q.c == p.c.(willTopic := q.c.willTopic, willMessage := q.c.willMessage)
        && WillFits(q.c)
  {
  }

  lemma CredentialsLeft(mem: seq<byte>, remLen: nat, p: Progress)
    requires p.Going? && p.c.flags.Valid() && p.c.userName == p.c.password == []
    ensures
      var q := ReadPassword(mem, remLen, ReadUserName(mem, remLen, p));
      q.Going? ==>
        && q.c == p.c.(userName := q.c.userName, password := q.c.password)
        && CredentialsFit(q.c)
  {
  }

  /** Only what has been read to the end is let in or refused for its credentials. */
  lemma AdmittedIsRead(mem: seq<byte>, remLen: nat, users: seq<Entry<Credentials, nat>>, c: Connect)
    requires DecodeConnect(mem, remLen, users, ZEROED) == Admitted(c, users)
    ensures ReadAll(mem, remLen).Going? && ReadAll(mem, remLen).c == c.(publishEnable := ReadAll(mem, remLen).c.publishEnable)
  {
  }

  /**
   * A header that is encoded and decoded again into a zeroed one comes back whole, for every combination of
   * flags and whatever follows, exactly if it is well-formed. With a list of users it is refused with code 4
   * unless both credentials are there and listed.
   */
  lemma ConnectRoundTrip(c: Connect, users: seq<Entry<Credentials, nat>>, rest: seq<byte>)
    requires c.flags.Valid() && LengthsFit(c)
    ensures DecodeConnect(Body(c) + rest, |Body(c)|, users, ZEROED) == Admitted(c, users) <==> WellFormed(c)
  {
    var mem, remLen := Body(c) + rest, |Body(c)|;
    if WellFormed(c) {
      WellFormedReads(c, users, rest);
    } else if DecodeConnect(mem, remLen, users, ZEROED) == Admitted(c, users) {
      AdmittedIsRead(mem, remLen, users, c);
      ReadIsWellFormed(mem, remLen);
    }
  }

  /** With both credential flags and no user name, the password comes back as the user name. */
  lemma PasswordTakenForName(c: Connect, rest: seq<byte>)
    requires WellFormed(c) && c.flags.userName == c.flags.password == 1 && c.userName != [] && c.password == []
    ensures
      var sent := c.(userName := [], password := c.userName);
      !WellFormed(sent) && Body(sent) == Body(c)
      && DecodeConnect(Body(sent) + rest, |Body(sent)|, [], ZEROED) == Ended(c.(publishEnable := 1), ACCEPTED)
  {
    SameOctets(c);
    WellFormedReads(c, [], rest);
  }

  lemma SameOctets(c: Connect)
    requires c.flags.Valid() && LengthsFit(c) && c.flags.userName == c.flags.password == 1 && c.password == []
    ensures Body(c.(userName := [], password := c.userName)) == Body(c)
  {
    var sent := c.(userName := [], password := c.userName);
    var name := OptionalField(true, c.userName);
    assert UserPart(sent) == [] + name == name + [] == UserPart(c);
  }

  /** Over the wire: the packet is one frame, and whatever header is decoded from it leads to the round trip. */
  lemma ConnectOverTheWire(c: Connect, users: seq<Entry<Credentials, nat>>, rest: seq<byte>, hdr: FixedHeader)
    requires c.flags.Valid() && LengthsFit(c) && DecodesTo(Packet(HeaderOf(c)) + rest, hdr)
    ensures IsFrame(Packet(HeaderOf(c))) && hdr.msgType == 1 && hdr.dup == hdr.qos == hdr.retain == 0
    ensures DecodeConnect(hdr.rem, hdr.remLen, users, ZEROED) == Admitted(c, users) <==> WellFormed(c)
  {
    EncodedIsFrame(HeaderOf(c), rest);
    EncodedDecodes(HeaderOf(c), rest, hdr);
    ConnectRoundTrip(c, users, rest);
  }

  // ---------------------------------------------------------------- what is accepted is what would be encoded

  /** The cursor has passed one optional field. */
  predicate Passed(mem: seq<byte>, p: Progress, q: Progress, flag: bool, s: seq<byte>) {
    && p.Going? && q.Going? && p.len <= q.len <= |mem| && |s| < 0x1_0000
    && mem[..q.len] == mem[..p.len] + OptionalField(flag, s)
  }

  lemma PassesWill(mem: seq<byte>, p: Progress)
    requires p.Going? && p.len <= |mem| && p.c.flags.Valid() && p.c.willTopic == p.c.willMessage == []
    requires ReadWillMessage(mem, ReadWillTopic(mem, p)).Going?
    ensures
      var q := ReadWillTopic(mem, p);
      var r := ReadWillMessage(mem, q);
      && Passed(mem, p, q, r.c.flags.will != 0, r.c.willTopic)
      && Passed(mem, q, r, r.c.flags.will != 0, r.c.willMessage)
  {
    if p.c.flags.will == 1 {
      ReadsField(mem, p.len);
      ReadsField(mem, ReadWillTopic(mem, p).len);
    }
  }

  lemma PassesCredentials(mem: seq<byte>, remLen: nat, p: Progress)
    requires p.Going? && p.len <= |mem| && p.c.flags.Valid() && p.c.userName == p.c.password == []
    requires ReadPassword(mem, remLen, ReadUserName(mem, remLen, p)).Going?
    ensures
      var q := ReadUserName(mem, remLen, p);
      var r := ReadPassword(mem, remLen, q);
      && Passed(mem, p, q, r.c.flags.userName != 0, r.c.userName)
      && Passed(mem, q, r, r.c.flags.password != 0, r.c.password)
  {
    if p.c.flags.userName == 1 && p.len < remLen {
      ReadsField(mem, p.len);
    }
    var q := ReadUserName(mem, remLen, p);
    if q.c.flags.password == 1 && q.len < remLen {
      ReadsField(mem, q.len);
    }
  }

  /** How many octets protocol name and level take: those of MQTT 3.1.1, or else those of 3.1. */
  function ProtocolSize(mem: seq<byte>): nat {
    if |mem| >= 7 && mem[..7] == PROTOCOL_311 then 7 else 9
  }

  lemma FixedIsIdentity(mem: seq<byte>, remLen: nat)
    requires ReadFixed(mem, remLen, ZEROED).Going?
    ensures var k := ProtocolSize(mem);
            k + 5 <= |mem| && ReadFixed(mem, remLen, ZEROED) == ReadIdentity(mem, remLen, ZEROED, k)
    ensures ProtocolSize(mem) == 7 || PROTOCOL_31 <= mem
  {
    if ProtocolSize(mem) == 9 {
      assert mem[..9] == PROTOCOL_31;
    }
  }

  /** Flags and keep-alive are those of the packet, but for the reserved flag. */
  predicate SameFixed(mem: seq<byte>, k: nat, c: Connect) {
    && k + 3 <= |mem| && c.flags.Valid() && mem[k] == c.flags.Octet() + mem[k] % 2
    && mem[k + 1..k + 3] == BigEndian16(c.keepAlive)
  }

  lemma BigEndianBack(bs: seq<byte>)
    requires |bs| == 2
    ensures BigEndian16(ReadBigEndian16(bs)) == bs
  {
  }

  lemma PassesFixed(mem: seq<byte>, remLen: nat)
    requires ReadFixed(mem, remLen, ZEROED).Going?
    ensures
      var p, k := ReadFixed(mem, remLen, ZEROED), ProtocolSize(mem);
      && p.len <= |mem| && |p.c.clientId| < 0x1_0000 && p.c == Identified(p.c) && SameFixed(mem, k, p.c)
      && mem[..p.len] == mem[..k + 3] + OptionalField(true, p.c.clientId)
  {
    FixedIsIdentity(mem, remLen);
    var k := ProtocolSize(mem);
    FlagsOfOctet(mem[k]);
    BigEndianBack(mem[k + 1..k + 3]);
    ReadsField(mem, k + 3);
  }

  /** What has been read before the users are looked at. */
  function ReadAll(mem: seq<byte>, remLen: nat): Progress {
    ReadOptional(mem, remLen, ReadFixed(mem, remLen, ZEROED))
  }

  lemma ReadIsEncoded(mem: seq<byte>, remLen: nat)
    requires ReadAll(mem, remLen).Going?
    ensures
      var r, k := ReadAll(mem, remLen), ProtocolSize(mem);
      && LengthsFit(r.c) && r.len <= |mem| && SameFixed(mem, k, r.c)
      && mem[..r.len] == mem[..k + 3] + Payload(r.c)
  {
    var p := ReadFixed(mem, remLen, ZEROED);
    PassesFixed(mem, remLen);
    var q := ReadWillTopic(mem, p);
    var r := ReadWillMessage(mem, q);
    PassesWill(mem, p);
    var s := ReadUserName(mem, remLen, r);
    PassesCredentials(mem, remLen, r);
    PassedInOrder(mem, ProtocolSize(mem) + 3, p, q, r, s, ReadAll(mem, remLen));
  }

  /** What the cursor has passed is the payload. */
  lemma PassedInOrder(mem: seq<byte>, k: nat, p: Progress, q: Progress, r: Progress, s: Progress, end: Progress)
    requires end.Going? && LengthsFit(end.c) && k <= |mem| && p.Going? && p.len <= |mem|
    requires mem[..p.len] == mem[..k] + OptionalField(true, end.c.clientId)
    requires Passed(mem, p, q, end.c.flags.will != 0, end.c.willTopic)
    requires Passed(mem, q, r, end.c.flags.will != 0, end.c.willMessage)
    requires Passed(mem, r, s, end.c.flags.userName != 0, end.c.userName)
    requires Passed(mem, s, end, end.c.flags.password != 0, end.c.password)
    ensures end.len <= |mem| && mem[..end.len] == mem[..k] + Payload(end.c)
  {
    var c := end.c;
    Regroup(mem[..k], OptionalField(true, c.clientId), OptionalField(c.flags.will != 0, c.willTopic),
            OptionalField(c.flags.will != 0, c.willMessage), OptionalField(c.flags.userName != 0, c.userName), PasswordPart(c));
  }

  /**
   * The converse, for MQTT 3.1 and 3.1.1: behind protocol name and level an accepted packet is, octet for
   * octet and but for the reserved flag, what the encoder writes for the header it leaves behind; and with a
   * list of users the credentials in it are listed.
   */
  lemma AcceptedIsEncoded(mem: seq<byte>, remLen: nat, users: seq<Entry<Credentials, nat>>)
    requires DecodeConnect(mem, remLen, users, ZEROED).outcome == ACCEPTED
    ensures
      var c, k := DecodeConnect(mem, remLen, users, ZEROED).c, ProtocolSize(mem);
      && LengthsFit(c) && SameFixed(mem, k, c) && k + 3 <= remLen <= |mem|
      && mem[..remLen] == mem[..k + 3] + Payload(c)
      && (users != [] ==> c.userName != [] && c.password != []
                          && Lookup(users, Credentials(c.userName, c.password)) == Some(c.publishEnable))
  {
    NotAcceptedEarly(mem, remLen);
    ReadIsEncoded(mem, remLen);
    PayloadIgnoresEnable(ReadAll(mem, remLen).c, DecodeConnect(mem, remLen, users, ZEROED).c.publishEnable);
  }

  /** With the name and level the encoder writes and the reserved flag clear, it is the encoder's packet. */
  lemma AcceptedIsBody(mem: seq<byte>, remLen: nat, users: seq<Entry<Credentials, nat>>)
    requires DecodeConnect(mem, remLen, users, ZEROED).outcome == ACCEPTED
    requires PROTOCOL_31 <= mem && |mem| > 9 && mem[9] % 2 == 0
    ensures
      var c := DecodeConnect(mem, remLen, users, ZEROED).c;
      c.flags.Valid() && LengthsFit(c) && remLen <= |mem| && mem[..remLen] == Body(c)
  {
    AcceptedIsEncoded(mem, remLen, users);
    var c := DecodeConnect(mem, remLen, users, ZEROED).c;
    SizeOf31(mem);
    FixedBack(mem, c);
  }

  lemma SizeOf31(mem: seq<byte>)
    requires PROTOCOL_31 <= mem
    ensures ProtocolSize(mem) == 9
  {
    assert mem[1] == PROTOCOL_31[1] == 6 && mem[..7][1] == mem[1];
  }

  lemma FixedBack(mem: seq<byte>, c: Connect)
    requires PROTOCOL_31 <= mem && SameFixed(mem, 9, c) && mem[9] % 2 == 0
    ensures mem[..12] == FixedPart(c)
  {
    assert mem[..12] == mem[..9] + [mem[9]] + mem[10..12];
  }

  lemma NotAcceptedEarly(mem: seq<byte>, remLen: nat)
    ensures ReadAll(mem, remLen).Ended? ==> ReadAll(mem, remLen).outcome != ACCEPTED
  {
  }

  lemma PayloadIgnoresEnable(c: Connect, n: nat)
    requires LengthsFit(c)
    ensures Payload(c.(publishEnable := n)) == Payload(c)
  {
  }

  // ---------------------------------------------------------------- the decoder step by step

  function State(c: Connect, ended: bool, outcome: Outcome, len: nat): Progress {
    if ended then Ended(c, outcome) else Going(c, len)
  }

  method ReadPiece(mem: seq<byte>, at: nat) returns (s: seq<byte>, bad: bool, outcome: Outcome)
    ensures PieceAt(mem, at) == if bad then Bad(outcome) else Piece(s)
  {
    s, bad, outcome := [], true, ReadsPast;
    if at + 2 <= |mem| {
      var n := ReadBigEndian16(mem[at..at + 2]);
      if at + 2 + n <= |mem| {
        s, bad, outcome := mem[at + 2..at + 2 + n], n == 0, AssertFails;
      }
    }
  }

  class ConnectHeader {
    var flags: Flags
    var keepAlive: word16
    var clientId: seq<byte>
    var willTopic: seq<byte>
    var willMessage: seq<byte>
    var userName: seq<byte>
    var password: seq<byte>
    var publishEnable: nat
    var users: Users

    ghost function View(): Connect
      reads this
    {
      Connect(flags, keepAlive, clientId, willTopic, willMessage, userName, password, publishEnable)
    }

    constructor (users: Users)
      ensures View() == ZEROED && this.users == users
      ensures flags == Flags(0, 0, 0, 0, 0, 0) && keepAlive == publishEnable == 0
      ensures clientId == willTopic == willMessage == userName == password == []
    {
      flags, keepAlive, clientId := Flags(0, 0, 0, 0, 0, 0), 0, [];
      willTopic, willMessage, userName, password, publishEnable := [], [], [], [], 0;
      this.users := users;
    }

    /** mqtt_connect_decode. */
    method Decode(mem: seq<byte>, remLen: nat) returns (outcome: Outcome)
      requires users.Valid() && this !in users.Repr
      modifies this
      ensures users == old(users)
      ensures DecodeConnect(mem, remLen, users.contents, old(View())) == Ended(View(), outcome)
    {
      var ended, len;
      ended, outcome, len := DecodeFixed(mem, remLen);
      if ended {
        return outcome;
      }
      ended, outcome, len := DecodeWill(mem, len);
      if ended {
        return outcome;
      }
      ended, outcome, len := DecodeCredentials(mem, remLen, len);
      if ended {
        return outcome;
      }
      outcome := CheckUser(remLen, len);
    }

    method DecodeFixed(mem: seq<byte>, remLen: nat) returns (ended: bool, outcome: Outcome, len: nat)
      modifies this
      ensures users == old(users)
      ensures State(View(), ended, outcome, len) == ReadFixed(mem, remLen, old(View()))
    {
      if |mem| < 7 {
        return true, ReadsPast, 0;
      }
      var cnt := 7;
      if mem[..7] != PROTOCOL_311 {
        if |mem| < 9 {
          return true, ReadsPast, 0;
        }
        if mem[..9] != PROTOCOL_31 {
          return true, REFUSED_PROTOCOL_VERSION, 0;
        }
        cnt := 9;
      }
      ended, outcome, len := DecodeIdentity(mem, remLen, cnt);
    }

    method DecodeIdentity(mem: seq<byte>, remLen: nat, cnt: nat) returns (ended: bool, outcome: Outcome, len: nat)
      modifies this
      ensures users == old(users)
      ensures State(View(), ended, outcome, len) == ReadIdentity(mem, remLen, old(View()), cnt)
    {
      if cnt + 5 > |mem| {
        return true, ReadsPast, 0;
      }
      flags, keepAlive, clientId := FlagsOf(mem[cnt]), ReadBigEndian16(mem[cnt + 1..cnt + 3]), [];
      var n := ReadBigEndian16(mem[cnt + 3..cnt + 5]);
      if n == 0 {
        return true, REFUSED_IDENTIFIER, 0;
      }
      if cnt + 5 + n > |mem| {
        return true, ReadsPast, 0;
      }
      clientId := mem[cnt + 5..cnt + 5 + n];
      var chars := Utf8.StrLen(clientId, n);
      assert clientId[..n] == clientId;
      if chars > 23 {
        return true, REFUSED_IDENTIFIER, 0;
      }
      len := cnt + 5 + n;
      ended, outcome := len > remLen, AssertFails;
    }

    method DecodeWill(mem: seq<byte>, at: nat) returns (ended: bool, outcome: Outcome, len: nat)
      modifies this`willTopic, this`willMessage
      ensures State(View(), ended, outcome, len) == ReadWillMessage(mem, ReadWillTopic(mem, Going(old(View()), at)))
    {
      ended, outcome, len := false, AssertFails, at;
      if flags.will == 1 {
        var s;
        s, ended, outcome := ReadPiece(mem, len);
        if !ended {
          willTopic, len := s, len + 2 + |s|;
          s, ended, outcome := ReadPiece(mem, len);
          if !ended {
            willMessage, len := s, len + 2 + |s|;
          }
        }
      }
    }

    method DecodeCredentials(mem: seq<byte>, remLen: nat, at: nat) returns (ended: bool, outcome: Outcome, len: nat)
      modifies this`userName, this`password
      ensures State(View(), ended, outcome, len) ==
              ReadPassword(mem, remLen, ReadUserName(mem, remLen, Going(old(View()), at)))
    {
      ended, outcome, len := false, AssertFails, at;
      if flags.userName == 1 && len < remLen {
        var s;
        s, ended, outcome := ReadPiece(mem, len);
        if ended {
          return;
        }
        userName, len := s, len + 2 + |s|;
      }
      if flags.password == 1 && len < remLen {
        var s;
        s, ended, outcome := ReadPiece(mem, len);
        if !ended {
          password, len := s, len + 2 + |s|;
        }
      }
    }

    method CheckUser(remLen: nat, len: nat) returns (outcome: Outcome)
      requires users.Valid() && this !in users.Repr
      modifies this`publishEnable
      ensures Admit(remLen, users.contents, Going(old(View()), len)) == Ended(View(), outcome)
    {
      if users.head != null {
        if userName == [] || password == [] {
          return REFUSED_USER_PASSWORD;
        }
        var lmu, i := users.Find(Credentials(userName, password));
        if lmu == null {
          return REFUSED_USER_PASSWORD;
        }
        publishEnable := lmu.val;
      } else {
        publishEnable := 1;
      }
      outcome := if len == remLen then ACCEPTED else AssertFails;
    }
  }
}
