/** The list behind a message queue, and what its three functions do to it (src/msgs.c:18-49). */
module MsgQueue {
  import opened OrderedMap

  class Msg {
    var next: Msg?

    constructor ()
      ensures next == null
    {
      next := null;
    }
  }

  function Before(pending: seq<Msg>, k: int): Msg?
    requires k <= |pending|
  {
    if k <= 0 then null else pending[k - 1]
  }

  class Queue {
    var msglist: Msg?
    ghost var pending: seq<Msg>

    /** `pending` is the queue from the oldest message on; each message points to the one added before it. */
    ghost predicate Valid()
      reads this, pending
    {
      && msglist == Before(pending, |pending|)
      && (forall k {:trigger pending[k].next} :: 0 <= k < |pending| ==> pending[k].next == Before(pending, k))
      && AllDifferent(pending)
    }

    constructor ()
      ensures Valid() && pending == []
    {
      msglist, pending := null, [];
    }

    /** add. */
    method Add(msg: Msg)
      requires Valid() && msg !in pending
      modifies this, msg
      ensures Valid() && pending == old(pending) + [msg]
    {
      msg.next := msglist;
      msglist := msg;
      pending := pending + [msg];
    }

    /** get_first: the end of the list, which is the oldest message. */
    method GetFirst() returns (m: Msg?)
      requires Valid()
      ensures m == if pending == [] then null else pending[0]
    {
      if msglist == null {
        return null;
      }
      var item: Msg := msglist;
      ghost var k := |pending| - 1;
      while item.next != null
        invariant 0 <= k < |pending| && item == pending[k]
        decreases k
      {
        assert pending[k].next == Before(pending, k);
        item, k := item.next, k - 1;
      }
      assert pending[k].next == Before(pending, k);
      m := item;
    }

    /** remove: the message goes, wherever it stands, and the others keep their order. */
    method Remove(msg: Msg)
      requires Valid()
      modifies this, msg, pending
      ensures Valid() && msg.next == null
      ensures msg !in old(pending) ==> pending == old(pending)
      ensures forall k :: 0 <= k < |old(pending)| && old(pending[k]) == msg ==> pending == RemoveAt(old(pending), k)
    {
      if msg == msglist {
        RemoveHead(msg);
      } else {
        var item := msglist;
        ghost var k := |pending|;
        while item != null && item.next != msg
          invariant 0 <= k <= |pending| && item == Before(pending, k)
          invariant msg !in pending[k..] && (k > 0 ==> msg != pending[k - 1])
          decreases k
        {
          assert pending[k - 1].next == Before(pending, k - 1);
          item, k := item.next, k - 1;
          assert k > 0 ==> pending[k - 1] != msg;
        }
        if item != null {
          RemoveBehind(item, msg, k - 2);
        }
      }
      msg.next := null;
    }

    method RemoveHead(msg: Msg)
      requires Valid() && msg == msglist
      modifies this
      ensures Valid() && pending == old(pending)[..|old(pending)| - 1] == RemoveAt(old(pending), |old(pending)| - 1)
      ensures msg !in pending && msg == old(pending)[|old(pending)| - 1]
    {
      var last := |pending| - 1;
      assert pending[last].next == Before(pending, last);
      msglist := msglist.next;
      pending := pending[..last];
    }

    method RemoveBehind(item: Msg, msg: Msg, ghost k: nat)
      requires Valid() && k + 1 < |pending| && pending[k] == msg && pending[k + 1] == item
      modifies this`pending, item
      ensures Valid() && pending == RemoveAt(old(pending), k) && msg !in pending
    {
      assert pending[k].next == Before(pending, k) && pending[k + 1].next == Before(pending, k + 1);
      ghost var was := pending;
      item.next := msg.next;
      pending := RemoveAt(was, k);
      RemoveDifferent(was, k);
      forall j | 0 <= j < |pending| ensures pending[j].next == Before(pending, j) {
        assert old(was[Gap(k, j)].next) == Before(was, Gap(k, j)) && pending[j] == was[Gap(k, j)];
      }
    }
  }
}
