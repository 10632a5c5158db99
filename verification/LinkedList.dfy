/** The singly linked lists of src/list.c, and the keyed lists src/lists.c builds on them. */
module LinkedList {
  import opened Wrappers
  import opened OrderedMap

  class Node<K(==), V> {
    var key: K
    var val: V
    var next: Node?<K, V>

    constructor (key: K, val: V)
      ensures this.key == key && this.val == val && next == null
    {
      this.key, this.val, next := key, val, null;
    }
  }

  /** The node at a position; null behind the last one. */
  function NodeAt<K(==), V>(nodes: seq<Node<K, V>>, i: nat): Node?<K, V> {
    if i < |nodes| then nodes[i] else null
  }

  lemma GapStep<K, V>(was: seq<Node<K, V>>, i: nat, j: nat)
    requires i < |was| && j < |was| - 1
    ensures NodeAt(RemoveAt(was, i), j + 1) == NodeAt(was, if j + 1 == i then i + 1 else Gap(i, j) + 1)
  {
  }

  class List<K(==), V> {
    var head: Node?<K, V>
    ghost var nodes: seq<Node<K, V>>
    ghost var contents: seq<Entry<K, V>>
    ghost var Repr: set<object>

    /** The chain from head runs through `nodes`, all different, and ends: it has no cycle. */
    ghost predicate Chain()
      reads this, Repr
    {
      && this in Repr
      && (forall n :: n in nodes ==> n in Repr)
      && head == NodeAt(nodes, 0)
      && (forall i {:trigger nodes[i].next} :: 0 <= i < |nodes| ==> nodes[i].next == NodeAt(nodes, i + 1))
      && (forall i, j {:trigger nodes[i].next, nodes[j].next} :: 0 <= i < j < |nodes| ==> nodes[i] != nodes[j])
    }

    /** `contents` is what the nodes hold. */
    ghost predicate Valid()
      reads this, Repr
    {
      && Chain()
      && |contents| == |nodes|
      && forall i {:trigger nodes[i].key} {:trigger nodes[i].val} :: 0 <= i < |nodes| ==> contents[i] == Entry(nodes[i].key, nodes[i].val)
    }

    lemma Distinct()
      requires Chain()
      ensures AllDifferent(nodes)
    {
      forall i, j | 0 <= i < j < |nodes| ensures nodes[i] != nodes[j] {
        assert nodes[i].next == NodeAt(nodes, i + 1) && nodes[j].next == NodeAt(nodes, j + 1);
      }
    }

    /** list_init. */
    constructor ()
      ensures Valid() && fresh(Repr) && nodes == [] && contents == []
    {
      head, nodes, contents, Repr := null, [], [], {this};
    }

    /** list_add_item: behind the last node. */
    method AddItem(item: Node<K, V>)
      requires Valid() && item !in nodes
      modifies Repr, item`next
      ensures Valid() && Repr == old(Repr) + {item} && nodes == old(nodes) + [item]
      ensures contents == old(contents) + [Entry(item.key, item.val)]
    {
      Distinct();
      item.next := null;
      if head == null {
        head := item;
      } else {
        var last: Node<K, V> := head;
        ghost var i := 0;
        while last.next != null
          invariant 0 <= i < |nodes| && last == nodes[i]
          decreases |nodes| - i
        {
          assert nodes[i].next == NodeAt(nodes, i + 1);
          last, i := last.next, i + 1;
        }
        last.next := item;
      }
      nodes, contents, Repr := nodes + [item], contents + [Entry(item.key, item.val)], Repr + {item};
    }

    /** list_remove: unlinks the node if it is in the list, and returns the one behind it. */
    method Remove(item: Node<K, V>) returns (next: Node?<K, V>)
      requires Valid()
      modifies Repr
      ensures Valid() && Repr == old(Repr)
      ensures item !in old(nodes) ==> next == null && nodes == old(nodes) && contents == old(contents)
      ensures forall k :: 0 <= k < |old(nodes)| && old(nodes[k]) == item ==>
        && nodes == RemoveAt(old(nodes), k)
        && contents == RemoveAt(old(contents), k)
        && next == NodeAt(nodes, k) && item.next == null
    {
      Distinct();
      var prev: Node?<K, V> := null;
      var find := head;
      ghost var i := 0;
      while find != null
        invariant 0 <= i <= |nodes| && find == NodeAt(nodes, i)
        invariant prev == if i == 0 then null else nodes[i - 1]
        invariant item !in nodes[..i]
        decreases |nodes| - i
      {
        if find == item {
          next := Unlink(prev, find, i);
          contents := RemoveAt(contents, i);
          return;
        }
        assert nodes[i].next == NodeAt(nodes, i + 1);
        prev, find, i := find, find.next, i + 1;
      }
      return null;
    }

    method Unlink(prev: Node?<K, V>, find: Node<K, V>, ghost i: nat) returns (next: Node?<K, V>)
      requires Chain() && i < |nodes| && find == nodes[i]
      requires prev == if i == 0 then null else nodes[i - 1]
      modifies this`head, this`nodes, nodes`next
      ensures Chain() && nodes == RemoveAt(old(nodes), i)
      ensures next == NodeAt(nodes, i) && find.next == null
    {
      ghost var was := nodes;
      Distinct();
      next := find.next;
      assert next == NodeAt(was, i + 1);
      RemoveDifferent(was, i);
      nodes := RemoveAt(was, i);
      find.next := null;
      if prev == null {
        head := next;
        assert forall j :: 0 <= j < |nodes| ==> nodes[j].next == old(was[Gap(i, j)].next);
      } else {
        prev.next := next;
        forall j | 0 <= j < |nodes| ensures nodes[j].next == NodeAt(nodes, j + 1) {
          GapStep(was, i, j);
          if j != i - 1 {
            assert nodes[j] == was[Gap(i, j)] != prev && nodes[j].next == old(was[Gap(i, j)].next);
          }
        }
      }
    }

    /** list_get_length. */
    method GetLength() returns (cnt: nat)
      requires Valid()
      ensures cnt == |nodes|
    {
      cnt := 0;
      var item := head;
      while item != null
        invariant cnt <= |nodes| && item == NodeAt(nodes, cnt)
        decreases |nodes| - cnt
      {
        assert nodes[cnt].next == NodeAt(nodes, cnt + 1);
        item, cnt := item.next, cnt + 1;
      }
    }

    /** The walk of list_name_find_name, list_reg_find_topic_id and the like. */
    method Find(key: K) returns (item: Node?<K, V>, ghost i: nat)
      requires Valid()
      ensures i == IndexOf(contents, key)
      ensures item == NodeAt(nodes, IndexOf(contents, key))
    {
      item, i := head, 0;
      while item != null
        invariant i <= |nodes| && item == NodeAt(nodes, i)
        invariant forall j :: 0 <= j < i ==> contents[j].key != key
        decreases |nodes| - i
      {
        if item.key == key {
          break;
        }
        assert nodes[i].next == NodeAt(nodes, i + 1);
        item, i := item.next, i + 1;
      }
      FirstIs(contents, key, i);
    }

    /** A new node behind the last one, as the functions named add build it. */
    method AddNew(key: K, val: V) returns (item: Node<K, V>)
      requires Valid()
      modifies Repr
      ensures Valid() && fresh(item) && Repr == old(Repr) + {item} && nodes == old(nodes) + [item]
      ensures contents == old(contents) + [Entry(key, val)]
    {
      item := new Node(key, val);
      AddItem(item);
    }

    /** A node known to be in the list, unlinked. */
    method RemoveFound(item: Node<K, V>, ghost i: nat)
      requires Valid() && i < |nodes| && item == nodes[i]
      modifies Repr
      ensures Valid() && Repr == old(Repr)
      ensures contents == RemoveAt(old(contents), i)
    {
      ghost var was := nodes;
      var _ := Remove(item);
      assert was[i] == item && nodes == RemoveAt(was, i);
    }

    /** list_next. */
    method NextOf(item: Node<K, V>, ghost i: nat) returns (next: Node?<K, V>)
      requires Valid() && i < |nodes| && item == nodes[i]
      ensures next == NodeAt(nodes, i + 1)
    {
      next := item.next;
    }

    /** A value overwritten in place. */
    method Assign(item: Node<K, V>, val: V, ghost i: nat)
      requires Valid() && i < |nodes| && item == nodes[i]
      modifies this`contents, item`val
      ensures Valid()
      ensures contents == old(contents)[i := Entry(item.key, val)]
      ensures item.val == val
    {
      Distinct();
      item.val := val;
      contents := contents[i := Entry(item.key, val)];
    }

    /** The walks that look for a value: the first node for which the test holds. */
    method FindWhere(p: V -> bool) returns (item: Node?<K, V>, ghost i: nat)
      requires Valid()
      ensures i == FirstWhere(contents, p)
      ensures item == NodeAt(nodes, FirstWhere(contents, p))
    {
      item, i := head, 0;
      while item != null
        invariant i <= |nodes| && item == NodeAt(nodes, i)
        invariant forall j :: 0 <= j < i ==> !p(contents[j].val)
        decreases |nodes| - i
      {
        if p(item.val) {
          break;
        }
        assert nodes[i].next == NodeAt(nodes, i + 1);
        item, i := item.next, i + 1;
      }
      FirstWhereIs(contents, p, i);
    }
  }
}
