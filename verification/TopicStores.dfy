/** The subscription, publication, register and message lists of src/lists.c. */
module TopicStores {
  import opened Bytes
  import opened Wrappers
  import opened OrderedMap
  import opened LinkedList
  import opened TopicMatch

  type Name = seq<byte>

  datatype Sub = Sub(qos: byte, topicId: word16)
  datatype Pub = Pub(data: seq<byte>, retain: byte, topicId: word16)
  datatype Msg = Msg(msgId: word16, qos: byte, tts: byte, dup: byte)

  // ---------------------------------------------------------------- what each operation does to an entry

  function WithQos(qos: byte): Option<Sub> -> Sub {
    (was: Option<Sub>) => Sub(qos, if was.Some? then was.value.topicId else 0)
  }

  /** A subscription added or changed. */
  function SubPut(s: seq<Entry<Name, Sub>>, name: Name, qos: byte): seq<Entry<Name, Sub>> {
    Put(s, name, Sub(qos, match Lookup(s, name) case None => 0 case Some(sub) => sub.topicId))
  }

  lemma SubPutIsStep(s: seq<Entry<Name, Sub>>, name: Name, qos: byte)
    ensures SubPut(s, name, qos) == Step(s, Update(name, WithQos(qos)))
  {
  }

  function WithData(data: seq<byte>, retain: byte): Option<Pub> -> Pub {
    (was: Option<Pub>) => Pub(data, retain, if was.Some? then was.value.topicId else 0)
  }

  function UnlessThere<V>(val: V): Option<V> -> V {
    (was: Option<V>) => if was.Some? then was.value else val
  }

  function Restarted(qos: byte): Option<Msg> -> Msg {
    (was: Option<Msg>) => Msg(if was.Some? then was.value.msgId else 0, qos, 0, 0)
  }

  // ---------------------------------------------------------------- subscriptions, by name

  method SubAddReplace(list: List<Name, Sub>, name: Name, qos: byte) returns (item: Node<Name, Sub>)
    requires list.Valid() && name != []
    modifies list.Repr
    ensures list.Valid() && list.Repr == old(list.Repr) + {item} && (item in old(list.Repr) || fresh(item))
    ensures list.contents == SubPut(old(list.contents), name, qos)
    ensures match Lookup(old(list.contents), name)
      case None => list.contents == old(list.contents) + [Entry(name, Sub(qos, 0))]
      case Some(sub) => list.contents == Put(old(list.contents), name, Sub(qos, sub.topicId))
  {
    var found, i := list.Find(name);
    if found == null {
      item := list.AddNew(name, Sub(qos, 0));
    } else {
      item := found;
      list.Assign(item, item.val.(qos := qos), i);
    }
  }

  method SubRemoveName(list: List<Name, Sub>, name: Name)
    requires list.Valid() && name != []
    modifies list.Repr
    ensures list.Valid() && list.Repr == old(list.Repr)
    ensures list.contents == Drop(old(list.contents), name)
  {
    DropIs(list.contents, name);
    var item, i := list.Find(name);
    if item != null {
      list.RemoveFound(item, i);
    }
  }

  method SubRemoveTopicId(list: List<Name, Sub>, topicId: word16)
    requires list.Valid() && topicId != 0
    modifies list.Repr
    ensures list.Valid() && list.Repr == old(list.Repr)
    ensures list.contents == Step(old(list.contents), RemoveFirst((sub: Sub) => sub.topicId == topicId))
  {
    var item, i := list.FindWhere((sub: Sub) => sub.topicId == topicId);
    if item != null {
      list.RemoveFound(item, i);
    }
  }

  // ---------------------------------------------------------------- publications, by name

  method PubAddReplace(list: List<Name, Pub>, name: Name, data: seq<byte>, retain: byte) returns (item: Node<Name, Pub>)
    requires list.Valid() && name != []
    modifies list.Repr
    ensures list.Valid() && list.Repr == old(list.Repr) + {item} && (item in old(list.Repr) || fresh(item))
    ensures list.contents == Step(old(list.contents), Update(name, WithData(data, retain)))
    ensures match Lookup(old(list.contents), name)
      case None => list.contents == old(list.contents) + [Entry(name, Pub(data, retain, 0))]
      case Some(pub) => list.contents == Put(old(list.contents), name, Pub(data, retain, pub.topicId))
  {
    var found, i := list.Find(name);
    if found == null {
      item := list.AddNew(name, Pub(data, retain, 0));
    } else {
      item := found;
      list.Assign(item, item.val.(data := data, retain := retain), i);
    }
  }

  method PubAddIgnore(list: List<Name, Pub>, name: Name, data: seq<byte>, retain: byte) returns (item: Node<Name, Pub>)
    requires list.Valid() && name != []
    modifies list.Repr
    ensures list.Valid() && list.Repr == old(list.Repr) + {item} && (item in old(list.Repr) || fresh(item))
    ensures list.contents == Step(old(list.contents), Update(name, UnlessThere(Pub(data, retain, 0))))
    ensures list.contents == old(list.contents) +
              if Lookup(old(list.contents), name).None? then [Entry(name, Pub(data, retain, 0))] else []
  {
    var found, i := list.Find(name);
    if found == null {
      item := list.AddNew(name, Pub(data, retain, 0));
    } else {
      item := found;
    }
  }

  // ---------------------------------------------------------------- registrations and messages, by topic id

  method RegAdd(list: List<word16, ()>, topicId: word16) returns (item: Node<word16, ()>)
    requires list.Valid() && topicId != 0
    modifies list.Repr
    ensures list.Valid() && list.Repr == old(list.Repr) + {item} && (item in old(list.Repr) || fresh(item))
    ensures list.contents == Step(old(list.contents), Update(topicId, UnlessThere(())))
    ensures list.contents == old(list.contents) + if Lookup(old(list.contents), topicId).None? then [Entry(topicId, ())] else []
  {
    var found, i := list.Find(topicId);
    if found == null {
      item := list.AddNew(topicId, ());
    } else {
      item := found;
    }
  }

  method MsgAdd(list: List<word16, Msg>, topicId: word16, qos: byte) returns (item: Node<word16, Msg>)
    requires list.Valid() && topicId != 0
    modifies list.Repr
    ensures list.Valid() && list.Repr == old(list.Repr) + {item} && (item in old(list.Repr) || fresh(item))
    ensures list.contents == Step(old(list.contents), Update(topicId, Restarted(qos)))
    ensures match Lookup(old(list.contents), topicId)
      case None => list.contents == old(list.contents) + [Entry(topicId, Msg(0, qos, 0, 0))]
      case Some(msg) => list.contents == Put(old(list.contents), topicId, Msg(msg.msgId, qos, 0, 0))
  {
    var found, i := list.Find(topicId);
    if found == null {
      item := list.AddNew(topicId, Msg(0, qos, 0, 0));
    } else {
      item := found;
      list.Assign(item, item.val.(qos := qos, tts := 0, dup := 0), i);
    }
  }

  method MsgRemoveMsgId(list: List<word16, Msg>, msgId: word16)
    requires list.Valid() && msgId != 0
    modifies list.Repr
    ensures list.Valid() && list.Repr == old(list.Repr)
    ensures list.contents == Step(old(list.contents), RemoveFirst((msg: Msg) => msg.msgId == msgId))
  {
    var item, i := list.FindWhere((msg: Msg) => msg.msgId == msgId);
    if item != null {
      list.RemoveFound(item, i);
    }
  }

  // ---------------------------------------------------------------- who gets what

  predicate IsRetainedMatch(filter: Name, entry: Entry<Name, Pub>) {
    Scan(filter, entry.key) && entry.val.retain == 1
  }

  /** The positions of the retained publications that a filter takes. */
  function RetainedMatches(filter: Name, s: seq<Entry<Name, Pub>>): (positions: seq<nat>)
    ensures forall j :: 0 <= j < |positions| ==> positions[j] < |s|
  {
    if s == [] then []
    else
      var k := |s| - 1;
      RetainedMatches(filter, s[..k]) + if IsRetainedMatch(filter, s[k]) then [k] else []
  }

  /** All of them, in the order of the list, and nothing else. */
  lemma {:induction false} RetainedMatchesExactly(filter: Name, s: seq<Entry<Name, Pub>>)
    ensures var r := RetainedMatches(filter, s);
            && (forall i: nat :: i in r <==> i < |s| && Scan(filter, s[i].key) && s[i].val.retain == 1)
            && (forall j, k :: 0 <= j < k < |r| ==> r[j] < r[k])
  {
    if s != [] {
      var k := |s| - 1;
      RetainedMatchesExactly(filter, s[..k]);
      var r := RetainedMatches(filter, s[..k]);
      assert forall i: nat :: i < k ==> s[..k][i] == s[i];
      assert forall i: nat :: i in r + [k] <==> i in r || i == k;
    }
  }

  /** Links to the nodes at the positions. */
  ghost function Links<T>(nodes: seq<T>, positions: seq<nat>): seq<Entry<T, ()>>
    requires forall j :: 0 <= j < |positions| ==> positions[j] < |nodes|
  {
    seq(|positions|, j requires 0 <= j < |positions| => Entry(nodes[positions[j]], ()))
  }

  /** Links to the retained matches among the first i publications. */
  ghost predicate LinksUpTo<T>(filter: Name, s: seq<Entry<Name, Pub>>, nodes: seq<T>, i: nat, links: seq<Entry<T, ()>>) {
    i <= |s| && |s| == |nodes| && links == Links(nodes, RetainedMatches(filter, s[..i]))
  }

  lemma LinksStep<T>(filter: Name, s: seq<Entry<Name, Pub>>, nodes: seq<T>, i: nat, links: seq<Entry<T, ()>>)
    requires LinksUpTo(filter, s, nodes, i, links) && i < |s|
    ensures LinksUpTo(filter, s, nodes, i + 1,
                      links + if IsRetainedMatch(filter, s[i]) then [Entry(nodes[i], ())] else [])
  {
    assert s[..i + 1][..i] == s[..i];
  }

  ghost predicate HaveNames<V>(list: List<Name, V>)
    reads list, list.nodes
  {
    forall n :: n in list.nodes ==> n.key != []
  }

  /** One round: a link to the publication if it is retained and the filter takes it. */
  method LinkIfMatch(filter: Name, item: Node<Name, Pub>, links: List<Node<Name, Pub>, ()>)
    requires filter != [] && item.key != [] && links.Valid()
    modifies links.Repr
    ensures links.Valid() && fresh(links.Repr - old(links.Repr))
    ensures links.contents == old(links.contents) +
              if old(IsRetainedMatch(filter, Entry(item.key, item.val))) then [Entry(item, ())] else []
  {
    var matches := PnameMatchesSname(filter, item.key);
    if matches == 1 && item.val.retain == 1 {
      var _ := links.AddNew(item, ());
    }
  }

  /** list_sub_pub_matches: links to the retained publications that the subscription takes, in their order. */
  method SubPubMatches(filter: Name, pubs: List<Name, Pub>) returns (links: List<Node<Name, Pub>, ()>)
    requires filter != [] && pubs.Valid() && HaveNames(pubs)
    ensures links.Valid() && fresh(links.Repr)
    ensures links.contents == Links(pubs.nodes, RetainedMatches(filter, pubs.contents))
  {
    links := new List();
    var item := pubs.head;
    ghost var i := 0;
    while item != null
      invariant i <= |pubs.nodes| && item == NodeAt(pubs.nodes, i)
      invariant links.Valid() && fresh(links.Repr)
      invariant LinksUpTo(filter, pubs.contents, pubs.nodes, i, links.contents)
      decreases |pubs.nodes| - i
    {
      LinksStep(filter, pubs.contents, pubs.nodes, i, links.contents);
      LinkIfMatch(filter, item, links);
      item := pubs.NextOf(item, i);
      i := i + 1;
    }
    assert pubs.contents[..i] == pubs.contents;
  }

  /** list_pub_sub_matches: the QoS of the first subscription that takes the name, or -1. */
  method PubSubMatches(name: Name, subs: List<Name, Sub>) returns (qos: int)
    requires name != [] && subs.Valid() && HaveNames(subs)
    ensures qos == -1 ==> forall i :: 0 <= i < |subs.nodes| ==> !Scan(subs.nodes[i].key, name)
    ensures qos != -1 ==> exists i :: 0 <= i < |subs.nodes| && FirstTaker(subs.nodes, name, i)
                                      && subs.nodes[i].val.qos == qos
  {
    var item := subs.head;
    ghost var i := 0;
    while item != null
      invariant i <= |subs.nodes| && item == NodeAt(subs.nodes, i)
      invariant forall j :: 0 <= j < i ==> !Scan(subs.nodes[j].key, name)
      decreases |subs.nodes| - i
    {
      var matches := PnameMatchesSname(item.key, name);
      if matches == 1 {
        assert FirstTaker(subs.nodes, name, i);
        return item.val.qos;
      }
      assert subs.nodes[i].next == NodeAt(subs.nodes, i + 1);
      item, i := item.next, i + 1;
    }
    return -1;
  }

  ghost predicate FirstTaker(subs: seq<Node<Name, Sub>>, name: Name, i: nat)
    reads subs
  {
    i < |subs| && Scan(subs[i].key, name) && forall j :: 0 <= j < i ==> !Scan(subs[j].key, name)
  }

  /** If any subscription takes a name, exactly one is the first, and it stands nowhere behind it. */
  lemma {:induction false} OneFirstTaker(subs: seq<Node<Name, Sub>>, name: Name, k: nat) returns (i: nat)
    requires k < |subs| && Scan(subs[k].key, name)
    ensures i <= k && FirstTaker(subs, name, i) && forall j: nat :: FirstTaker(subs, name, j) ==> j == i
  {
    if h: nat :| h < k && Scan(subs[h].key, name) {
      i := OneFirstTaker(subs, name, h);
    } else {
      i := k;
    }
  }
}
