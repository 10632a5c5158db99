/** SUBSCRIBE and UNSUBSCRIBE: the decoders that walk a payload (src/mqtt.c:224-280). */
module MqttSubscribe {
  import opened Bytes
  import opened Wrappers
  import opened OrderedMap
  import opened LinkedList
  import opened MqttFraming
  import opened MqttFields
  import opened TopicStores

  /** One topic filter; an UNSUBSCRIBE has no QoS octet behind it, and 0 stands here. */
  datatype Request = Request(name: Name, qos: byte)

  datatype Requests = NoMore | More(request: Request, rest: Requests)

  /** The requests read one after the other, how many there are, and how the walk ended. */
  datatype Walk = Walk(requests: Requests, count: nat, outcome: Outcome) {
    function Behind(r: Request): Walk {
      Walk(More(r, requests), count + 1, outcome)
    }
  }

  function RequestsOf(rs: seq<Request>): Requests {
    if rs == [] then NoMore else More(rs[0], RequestsOf(rs[1..]))
  }

  const DONE := Answer(0)

  function Tail(qos: bool): nat {
    if qos then 1 else 0
  }

  /** Length and name of one topic filter, and the octet behind them: a name of length 0 fails an assertion. */
  datatype Read = One(request: Request, size: nat) | Fails(outcome: Outcome)

  function ReadRequest(mem: seq<byte>, at: nat, qos: bool): (r: Read)
    ensures r.One? ==> r.size > 2 && at + r.size <= |mem|
  {
    match StringAt(mem, at)
    case None => Fails(ReadsPast)
    case Some(name) =>
      if qos && at + 2 + |name| >= |mem| then Fails(ReadsPast)
      else if name == [] then Fails(AssertFails)
      else One(Request(name, if qos then mem[at + 2 + |name|] else 0), 2 + |name| + Tail(qos))
  }

  function WalkFrom(mem: seq<byte>, remLen: nat, len: nat, qos: bool): Walk
    decreases |mem| - len
  {
    if len >= Bound(remLen) then Walk(NoMore, 0, if 2 + len == remLen then DONE else AssertFails)
    else match ReadRequest(mem, 2 + len, qos)
      case Fails(outcome) => Walk(NoMore, 0, outcome)
      case One(request, size) => WalkFrom(mem, remLen, len + size, qos).Behind(request)
  }

  /** rem_len - 2, which wraps around in 32 bits. */
  function Bound(remLen: nat): nat {
    if remLen >= 2 then remLen - 2 else remLen + 0xFFFF_FFFE
  }

  /** An unsigned subtraction: lengths 0 and 1 lead to a bound near 2^32. */
  lemma BoundWraps(remLen: nat)
    requires remLen < 0x1_0000_0000
    ensures Bound(remLen) == (remLen - 2) % 0x1_0000_0000
  {
  }

  // ---------------------------------------------------------------- exactly the whole requests

  predicate IsRequest(r: Request, qos: bool) {
    0 < |r.name| < 0x1_0000 && (!qos ==> r.qos == 0)
  }

  function RequestOctets(r: Request, qos: bool): seq<byte>
    requires IsRequest(r, qos)
  {
    Field(r.name) + if qos then [r.qos] else []
  }

  predicate AreRequests(rs: seq<Request>, qos: bool) {
    forall i :: 0 <= i < |rs| ==> IsRequest(rs[i], qos)
  }

  function Payload(rs: seq<Request>, qos: bool): seq<byte>
    requires AreRequests(rs, qos)
  {
    if rs == [] then [] else RequestOctets(rs[0], qos) + Payload(rs[1..], qos)
  }

  lemma RequestReads(mem: seq<byte>, at: nat, r: Request, qos: bool, rest: seq<byte>)
    requires IsRequest(r, qos) && at <= |mem| && mem[at..] == RequestOctets(r, qos) + rest
    ensures ReadRequest(mem, at, qos) == One(r, |RequestOctets(r, qos)|)
    ensures mem[at + |RequestOctets(r, qos)|..] == rest
  {
    var tail := if qos then [r.qos] else [];
    Associative(Field(r.name), tail, rest);
    FieldReads(mem, at, r.name, tail + rest);
    var next := at + 2 + |r.name|;
    assert mem[next..] == tail + rest;
    if qos {
      assert mem[next] == mem[next..][0] == r.qos;
      assert mem[next + 1..] == mem[next..][1..] == rest;
    }
  }

  lemma ReadsRequest(mem: seq<byte>, at: nat, qos: bool)
    requires ReadRequest(mem, at, qos).One?
    ensures
      var One(r, size) := ReadRequest(mem, at, qos);
      IsRequest(r, qos) && size == |RequestOctets(r, qos)| && mem[at..at + size] == RequestOctets(r, qos)
  {
    ReadsField(mem, at);
    var One(r, size) := ReadRequest(mem, at, qos);
    var next := at + 2 + |r.name|;
    assert mem[at..next] == mem[..next][at..] == Field(r.name);
    if qos {
      assert mem[at..at + size] == mem[at..next] + [mem[next]];
    }
  }

  lemma PayloadStep(mem: seq<byte>, at: nat, qos: bool, rs: seq<Request>, rest: seq<byte>)
    requires rs != [] && AreRequests(rs, qos) && at <= |mem| && mem[at..] == Payload(rs, qos) + rest
    ensures
      var size := |RequestOctets(rs[0], qos)|;
      && ReadRequest(mem, at, qos) == One(rs[0], size) && at + size <= |mem|
      && |Payload(rs, qos)| == size + |Payload(rs[1..], qos)| && mem[at + size..] == Payload(rs[1..], qos) + rest
  {
    var octets, behind := RequestOctets(rs[0], qos), Payload(rs[1..], qos);
    assert Payload(rs, qos) == octets + behind;
    Associative(octets, behind, rest);
    RequestReads(mem, at, rs[0], qos, behind + rest);
  }

  lemma WalkStep(mem: seq<byte>, remLen: nat, len: nat, qos: bool, r: Request, size: nat)
    requires len < Bound(remLen) && ReadRequest(mem, 2 + len, qos) == One(r, size)
    ensures WalkFrom(mem, remLen, len, qos) == WalkFrom(mem, remLen, len + size, qos).Behind(r)
  {
  }

  /** A payload of whole requests is read request by request, in order. */
  lemma {:induction false} PayloadReads(mem: seq<byte>, remLen: nat, len: nat, qos: bool, rs: seq<Request>, rest: seq<byte>)
    requires AreRequests(rs, qos) && 2 + len <= |mem| && mem[2 + len..] == Payload(rs, qos) + rest
    requires remLen == 2 + len + |Payload(rs, qos)| < 0x1_0000_0000
    ensures WalkFrom(mem, remLen, len, qos) == Walk(RequestsOf(rs), |rs|, DONE)
    decreases |rs|
  {
    if rs == [] {
      assert Bound(remLen) == len;
    } else {
      PayloadStep(mem, 2 + len, qos, rs, rest);
      var size := |RequestOctets(rs[0], qos)|;
      WalkStep(mem, remLen, len, qos, rs[0], size);
      PayloadReads(mem, remLen, len + size, qos, rs[1..], rest);
    }
  }

  lemma OneMoreRequest(r: Request, rs: seq<Request>, qos: bool)
    requires IsRequest(r, qos) && AreRequests(rs, qos)
    ensures AreRequests([r] + rs, qos) && Payload([r] + rs, qos) == RequestOctets(r, qos) + Payload(rs, qos)
    ensures RequestsOf([r] + rs) == More(r, RequestsOf(rs))
  {
    assert ([r] + rs)[1..] == rs;
  }

  lemma OneMoreWalked(mem: seq<byte>, remLen: nat, len: nat, qos: bool, r: Request, size: nat, rs: seq<Request>)
    requires len < Bound(remLen) && ReadRequest(mem, 2 + len, qos) == One(r, size)
    requires WalkFrom(mem, remLen, len + size, qos) == Walk(RequestsOf(rs), |rs|, DONE)
    ensures WalkFrom(mem, remLen, len, qos) == Walk(RequestsOf([r] + rs), |[r] + rs|, DONE)
  {
    WalkStep(mem, remLen, len, qos, r, size);
    assert ([r] + rs)[1..] == rs;
  }

  lemma OneMoreOctets(mem: seq<byte>, at: nat, size: nat, end: nat, r: Request, rs: seq<Request>, qos: bool)
    requires IsRequest(r, qos) && AreRequests(rs, qos) && at + size <= end <= |mem|
    requires mem[at..at + size] == RequestOctets(r, qos) && mem[at + size..end] == Payload(rs, qos)
    ensures AreRequests([r] + rs, qos) && mem[at..end] == Payload([r] + rs, qos)
  {
    OneMoreRequest(r, rs, qos);
    assert mem[at..end] == mem[at..at + size] + mem[at + size..end];
  }

  /** And a walk that ends well has read nothing else. */
  lemma {:induction false} ReadsPayload(mem: seq<byte>, remLen: nat, len: nat, qos: bool) returns (rs: seq<Request>)
    requires WalkFrom(mem, remLen, len, qos).outcome == DONE && 2 + len <= |mem|
    ensures AreRequests(rs, qos) && WalkFrom(mem, remLen, len, qos) == Walk(RequestsOf(rs), |rs|, DONE)
    ensures 2 + len <= remLen <= |mem| && mem[2 + len..remLen] == Payload(rs, qos)
    decreases |mem| - len
  {
    rs := [];
    if len < Bound(remLen) {
      var One(r, size) := ReadRequest(mem, 2 + len, qos);
      ReadsRequest(mem, 2 + len, qos);
      var behind := ReadsPayload(mem, remLen, len + size, qos);
      rs := [r] + behind;
      OneMoreWalked(mem, remLen, len, qos, r, size, behind);
      OneMoreOctets(mem, 2 + len, size, remLen, r, behind, qos);
    }
  }

  lemma {:induction false} RequestsOfIs(rs: seq<Request>, ts: seq<Request>)
    ensures RequestsOf(rs) == RequestsOf(ts) ==> rs == ts
    decreases |rs|
  {
    if rs != [] {
      RequestsOfIs(rs[1..], if ts == [] then [] else ts[1..]);
    }
  }

  /** However the walk ends, it has counted the whole requests that it has read. */
  lemma {:induction false} WalkCounts(mem: seq<byte>, remLen: nat, len: nat, qos: bool) returns (rs: seq<Request>)
    ensures var w := WalkFrom(mem, remLen, len, qos); w.requests == RequestsOf(rs) && w.count == |rs| && AreRequests(rs, qos)
    decreases |mem| - len
  {
    rs := [];
    var read := ReadRequest(mem, 2 + len, qos);
    if len < Bound(remLen) && read.One? {
      var behind := WalkCounts(mem, remLen, len + read.size, qos);
      ReadIsRequest(mem, 2 + len, qos);
      WalkStep(mem, remLen, len, qos, read.request, read.size);
      CountStep(WalkFrom(mem, remLen, len + read.size, qos), read.request, behind, qos);
      rs := [read.request] + behind;
    }
  }

  lemma ReadIsRequest(mem: seq<byte>, at: nat, qos: bool)
    requires ReadRequest(mem, at, qos).One?
    ensures IsRequest(ReadRequest(mem, at, qos).request, qos)
  {
  }

  lemma CountStep(w: Walk, r: Request, rs: seq<Request>, qos: bool)
    requires w.requests == RequestsOf(rs) && w.count == |rs| && AreRequests(rs, qos) && IsRequest(r, qos)
    ensures AreRequests([r] + rs, qos)
    ensures w.Behind(r).requests == RequestsOf([r] + rs) && w.Behind(r).count == |[r] + rs|
  {
    assert ([r] + rs)[1..] == rs;
  }

  /** The walk ends well exactly when the payload is a sequence of whole requests, and those are what it reads. */
  lemma WalksExactlyPayloads(mem: seq<byte>, remLen: nat, qos: bool, rs: seq<Request>)
    requires 2 <= |mem| && remLen < 0x1_0000_0000
    ensures WalkFrom(mem, remLen, 0, qos) == Walk(RequestsOf(rs), |rs|, Answer(0)) <==> IsPayload(mem, remLen, qos, rs)
  {
    if IsPayload(mem, remLen, qos, rs) {
      assert mem[2..] == Payload(rs, qos) + mem[remLen..];
      PayloadReads(mem, remLen, 0, qos, rs, mem[remLen..]);
    }
    if WalkFrom(mem, remLen, 0, qos) == Walk(RequestsOf(rs), |rs|, DONE) {
      RequestsOfIs(rs, []);
      var ts := WalkReads(mem, remLen, qos);
      RequestsOfIs(rs, ts);
    }
  }

  predicate IsPayload(mem: seq<byte>, remLen: nat, qos: bool, rs: seq<Request>) {
    AreRequests(rs, qos) && 2 <= remLen <= |mem| && mem[2..remLen] == Payload(rs, qos)
  }

  lemma WalkReads(mem: seq<byte>, remLen: nat, qos: bool) returns (rs: seq<Request>)
    requires 2 <= |mem| && WalkFrom(mem, remLen, 0, qos).outcome == DONE
    ensures WalkFrom(mem, remLen, 0, qos) == Walk(RequestsOf(rs), |rs|, DONE) && IsPayload(mem, remLen, qos, rs)
  {
    rs := ReadsPayload(mem, remLen, 0, qos);
  }

  // ---------------------------------------------------------------- the fold over the store

  function SubscribeOps(rs: seq<Request>): (ops: seq<Op<Name, Sub>>) {
    seq(|rs|, i requires 0 <= i < |rs| => Update(rs[i].name, WithQos(rs[i].qos)))
  }

  function UnsubscribeOps(rs: seq<Request>): (ops: seq<Op<Name, Sub>>) {
    seq(|rs|, i requires 0 <= i < |rs| => Remove(rs[i].name))
  }

  /** The list after the requests of a walk, whether it ends well or not. */
  function Subscribed(w: Requests, s: seq<Entry<Name, Sub>>): seq<Entry<Name, Sub>> {
    if w.NoMore? then s else Subscribed(w.rest, SubPut(s, w.request.name, w.request.qos))
  }

  function Unsubscribed(w: Requests, s: seq<Entry<Name, Sub>>): seq<Entry<Name, Sub>> {
    if w.NoMore? then s else Unsubscribed(w.rest, Drop(s, w.request.name))
  }

  lemma {:induction false} SubscribedIsRun(rs: seq<Request>, s: seq<Entry<Name, Sub>>)
    ensures Subscribed(RequestsOf(rs), s) == Run(s, SubscribeOps(rs))
    ensures Unsubscribed(RequestsOf(rs), s) == Run(s, UnsubscribeOps(rs))
    decreases |rs|
  {
    if rs != [] {
      SubPutIsStep(s, rs[0].name, rs[0].qos);
      assert SubscribeOps(rs)[1..] == SubscribeOps(rs[1..]);
      assert UnsubscribeOps(rs)[1..] == UnsubscribeOps(rs[1..]);
      SubscribedIsRun(rs[1..], Step(s, Update(rs[0].name, WithQos(rs[0].qos))));
      SubscribedIsRun(rs[1..], Step(s, Remove(rs[0].name)));
    }
  }

  /**
   * Decoding a well-formed packet is the in-order fold of map updates, or of map removals, over its
   * requests, on the insertion-ordered map that the list stands for.
   */
  lemma DecodingFoldsTheMap(mem: seq<byte>, remLen: nat, rs: seq<Request>, qos: bool, s: seq<Entry<Name, Sub>>)
    requires UniqueKeys(s) && 2 <= remLen <= |mem| && remLen < 0x1_0000_0000
    requires AreRequests(rs, qos) && mem[2..remLen] == Payload(rs, qos)
    ensures
      var w := WalkFrom(mem, remLen, 0, qos);
      && w.outcome == Answer(0) && w.count == |rs|
      && UniqueKeys(Subscribed(w.requests, s)) && Abstract(Subscribed(w.requests, s)) == MapRun(Abstract(s), SubscribeOps(rs))
      && UniqueKeys(Unsubscribed(w.requests, s)) && Abstract(Unsubscribed(w.requests, s)) == MapRun(Abstract(s), UnsubscribeOps(rs))
  {
    WalksExactlyPayloads(mem, remLen, qos, rs);
    RequestsOfIs(rs, []);
    SubscribedIsRun(rs, s);
    RunRefines(s, SubscribeOps(rs));
    RunRefines(s, UnsubscribeOps(rs));
  }

  method ReadOne(mem: seq<byte>, at: nat, qos: bool) returns (fails: bool, outcome: Outcome, r: Request, size: nat)
    ensures ReadRequest(mem, at, qos) == if fails then Fails(outcome) else One(r, size)
  {
    fails, outcome, r, size := true, ReadsPast, Request([], 0), 0;
    if at + 2 <= |mem| {
      var nameLen := ReadBigEndian16(mem[at..at + 2]);
      var end := at + 2 + nameLen;
      if end <= |mem| && (!qos || end < |mem|) {
        fails, outcome := nameLen == 0, AssertFails;
        r, size := Request(mem[at + 2..end], if qos then mem[end] else 0), 2 + nameLen + Tail(qos);
      }
    }
  }

  /** The loop condition and the next request: where the walk ends, or goes on. */
  method NextRequest(mem: seq<byte>, remLen: nat, len: nat, qos: bool)
    returns (more: bool, outcome: Outcome, r: Request, size: nat, ghost behind: Walk)
    ensures !more ==> WalkFrom(mem, remLen, len, qos) == Walk(NoMore, 0, outcome)
    ensures more ==> WalkFrom(mem, remLen, len, qos) == behind.Behind(r) && behind == WalkFrom(mem, remLen, len + size, qos)
    ensures more ==> r.name != []
  {
    more, outcome, r, size, behind := false, if 2 + len == remLen then DONE else AssertFails, Request([], 0), 0, Walk(NoMore, 0, DONE);
    if len < Bound(remLen) {
      var fails;
      fails, outcome, r, size := ReadOne(mem, 2 + len, qos);
      more := !fails;
      if more {
        behind := WalkFrom(mem, remLen, len + size, qos);
        WalkStep(mem, remLen, len, qos, r, size);
      }
    }
  }

  /** The list in the header itself is short-lived and kept as a value. */
  class SubscribeHeader {
    var msgId: word16
    var qosSize: nat
    var subs: List<Name, Sub>
    var item: seq<Entry<Name, Sub>>

    ghost predicate Valid()
      reads this, subs, subs.Repr
    {
      subs.Valid() && this !in subs.Repr
    }

    constructor (subs: List<Name, Sub>)
      requires subs.Valid()
      ensures Valid() && this.subs == subs && item == []
    {
      msgId, qosSize, this.subs, item := 0, 0, subs, [];
    }

    /** mqtt_subscribe_decode: every request goes into both lists. */
    method Subscribe(mem: seq<byte>, remLen: nat) returns (outcome: Outcome)
      requires Valid() && 2 <= |mem|
      modifies this`msgId, this`qosSize, this`item, subs.Repr
      ensures Valid()
      ensures
        var w := WalkFrom(mem, remLen, 0, true);
        && outcome == w.outcome && msgId == ReadBigEndian16(mem) && qosSize == w.count
        && subs.contents == Subscribed(w.requests, old(subs.contents)) && item == Subscribed(w.requests, old(item))
    {
      msgId := ReadBigEndian16(mem);
      outcome, qosSize, item := SubscribeAll(mem, remLen, subs, item, WalkFrom(mem, remLen, 0, true));
    }

    /** mqtt_unsubscribe_decode. */
    method Unsubscribe(mem: seq<byte>, remLen: nat) returns (outcome: Outcome)
      requires Valid() && 2 <= |mem|
      modifies this`msgId, subs.Repr
      ensures Valid()
      ensures
        var w := WalkFrom(mem, remLen, 0, false);
        && outcome == w.outcome && msgId == ReadBigEndian16(mem)
        && subs.contents == Unsubscribed(w.requests, old(subs.contents))
    {
      msgId := ReadBigEndian16(mem);
      outcome := UnsubscribeAll(mem, remLen, subs, WalkFrom(mem, remLen, 0, false));
    }
  }

  /** One round of the loop. */
  method SubscribeNext(mem: seq<byte>, remLen: nat, len: nat, subs: List<Name, Sub>, subItem: seq<Entry<Name, Sub>>, ghost w: Walk)
    returns (more: bool, outcome: Outcome, next: nat, item: seq<Entry<Name, Sub>>, ghost behind: Walk)
    requires subs.Valid() && w == WalkFrom(mem, remLen, len, true)
    modifies subs.Repr
    ensures subs.Valid() && fresh(subs.Repr - old(subs.Repr))
    ensures !more ==> w == Walk(NoMore, 0, outcome) && subs.contents == old(subs.contents) && item == subItem
    ensures more ==> w.requests.More? && w == behind.Behind(w.requests.request) && behind == WalkFrom(mem, remLen, next, true)
    ensures more ==> subs.contents == SubPut(old(subs.contents), w.requests.request.name, w.requests.request.qos)
    ensures more ==> item == SubPut(subItem, w.requests.request.name, w.requests.request.qos)
  {
    var r, size;
    more, outcome, r, size, behind := NextRequest(mem, remLen, len, true);
    next, item := len + size, subItem;
    if more {
      item := TakeRequest(subs, subItem, r);
    }
  }

  /** One topic filter goes into both lists. */
  method TakeRequest(subs: List<Name, Sub>, subItem: seq<Entry<Name, Sub>>, r: Request) returns (item: seq<Entry<Name, Sub>>)
    requires subs.Valid() && r.name != []
    modifies subs.Repr
    ensures subs.Valid() && fresh(subs.Repr - old(subs.Repr))
    ensures subs.contents == SubPut(old(subs.contents), r.name, r.qos) && item == SubPut(subItem, r.name, r.qos)
  {
    var _ := SubAddReplace(subs, r.name, r.qos);
    item := SubPut(subItem, r.name, r.qos);
  }

  method SubscribeAll(mem: seq<byte>, remLen: nat, subs: List<Name, Sub>, subItem: seq<Entry<Name, Sub>>, ghost w: Walk)
    returns (outcome: Outcome, qosSize: nat, item: seq<Entry<Name, Sub>>)
    requires subs.Valid() && w == WalkFrom(mem, remLen, 0, true)
    modifies subs.Repr
    ensures subs.Valid() && fresh(subs.Repr - old(subs.Repr))
    ensures outcome == w.outcome && qosSize == w.count
    ensures subs.contents == Subscribed(w.requests, old(subs.contents)) && item == Subscribed(w.requests, subItem)
  {
    var len := 0;
    qosSize, item := 0, subItem;
    ghost var ahead, repr, was := w, subs.Repr, subs.contents;
    while true
      invariant subs.Valid() && fresh(subs.Repr - repr)
      invariant ahead == WalkFrom(mem, remLen, len, true)
      invariant ahead.outcome == w.outcome && qosSize + ahead.count == w.count
      invariant Subscribed(ahead.requests, subs.contents) == Subscribed(w.requests, was)
      invariant Subscribed(ahead.requests, item) == Subscribed(w.requests, subItem)
      decreases ahead.requests
    {
      var more;
      more, outcome, len, item, ahead := SubscribeNext(mem, remLen, len, subs, item, ahead);
      if !more {
        return;
      }
      qosSize := qosSize + 1;
    }
  }

  method UnsubscribeAll(mem: seq<byte>, remLen: nat, subs: List<Name, Sub>, ghost w: Walk) returns (outcome: Outcome)
    requires subs.Valid() && w == WalkFrom(mem, remLen, 0, false)
    modifies subs.Repr
    ensures subs.Valid() && subs.Repr == old(subs.Repr)
    ensures outcome == w.outcome && subs.contents == Unsubscribed(w.requests, old(subs.contents))
  {
    var len := 0;
    ghost var ahead, repr, was := w, subs.Repr, subs.contents;
    while true
      invariant subs.Valid() && subs.Repr == repr
      invariant ahead == WalkFrom(mem, remLen, len, false) && ahead.outcome == w.outcome
      invariant Unsubscribed(ahead.requests, subs.contents) == Unsubscribed(w.requests, was)
      decreases ahead.requests
    {
      var more, o, r, size, behind := NextRequest(mem, remLen, len, false);
      if !more {
        return o;
      }
      SubRemoveName(subs, r.name);
      len, ahead := len + size, behind;
    }
  }
}
