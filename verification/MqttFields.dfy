/** Length-prefixed strings in the packets of src/mqtt.c. */
module MqttFields {
  import opened Bytes
  import opened Wrappers

  /** A return code, a failed assertion, or a read behind the memory of the packet. */
  datatype Outcome = Answer(code: nat) | AssertFails | ReadsPast

  function Field(s: seq<byte>): seq<byte>
    requires |s| < 0x1_0000
  {
    BigEndian16(|s|) + s
  }

  /** Section 1.5.3: two octets with the length, the more significant one first, and the string. */
  lemma FieldOctets(s: seq<byte>)
    requires |s| < 0x1_0000
    ensures |Field(s)| == 2 + |s| && Field(s)[0] as int * 256 + Field(s)[1] == |s| && Field(s)[2..] == s
  {
  }

  /** memcpy behind the cursor. */
  method Copy(rem: array<byte>, at: nat, s: seq<byte>) returns (next: nat)
    requires at + |s| <= rem.Length
    modifies rem
    ensures next == at + |s| && rem[..next] == old(rem[..at]) + s
  {
    forall i | 0 <= i < |s| {
      rem[at + i] := s[i];
    }
    next := at + |s|;
    ghost var after, before := rem[..next], old(rem[..at]);
    assert forall i :: 0 <= i < |s| ==> after[at + i] == rem[at + i] == s[i];
    assert after[..at] == before;
  }

  /** The string whose 16-bit length stands at a position. */
  function StringAt(mem: seq<byte>, at: nat): Option<seq<byte>> {
    if at + 2 > |mem| then None
    else
      var n := ReadBigEndian16(mem[at..at + 2]);
      if at + 2 + n > |mem| then None else Some(mem[at + 2..at + 2 + n])
  }

  lemma FieldReads(mem: seq<byte>, at: nat, s: seq<byte>, rest: seq<byte>)
    requires at <= |mem| && |s| < 0x1_0000 && mem[at..] == Field(s) + rest
    ensures StringAt(mem, at) == Some(s) && at + 2 + |s| <= |mem| && mem[at + 2 + |s|..] == rest
  {
    assert mem[at..at + 2] == mem[at..][..2] == BigEndian16(|s|);
    assert mem[at + 2..at + 2 + |s|] == mem[at..][2..2 + |s|] == s;
    assert mem[at + 2 + |s|..] == mem[at..][2 + |s|..];
  }

  lemma ReadsField(mem: seq<byte>, at: nat)
    requires StringAt(mem, at).Some?
    ensures
      var s := StringAt(mem, at).value;
      |s| < 0x1_0000 && at + 2 + |s| <= |mem| && mem[..at + 2 + |s|] == mem[..at] + Field(s)
  {
    var bs, s := mem[at..at + 2], StringAt(mem, at).value;
    assert BigEndian16(ReadBigEndian16(bs)) == bs;
    assert mem[..at + 2 + |s|] == mem[..at] + (bs + s);
  }
}
