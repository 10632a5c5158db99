/** Association lists with unique keys, and the insertion-ordered maps they stand for. */
module OrderedMap {
  import opened Wrappers

  datatype Entry<+K, +V> = Entry(key: K, val: V)

  /** The position of the first entry with the key, or the length of the list. */
  function IndexOf<K(==), V>(s: seq<Entry<K, V>>, key: K): (i: nat)
    ensures i <= |s|
    ensures i < |s| ==> s[i].key == key
    ensures forall j :: 0 <= j < i ==> s[j].key != key
  {
    if s == [] || s[0].key == key then 0 else 1 + IndexOf(s[1..], key)
  }

  ghost predicate UniqueKeys<K, V>(s: seq<Entry<K, V>>) {
    forall i, j :: 0 <= i < j < |s| ==> s[i].key != s[j].key
  }

  /** Replace the value of the first entry with the key, or append an entry. */
  function Put<K(==), V>(s: seq<Entry<K, V>>, key: K, val: V): seq<Entry<K, V>> {
    var i := IndexOf(s, key);
    if i < |s| then s[i := Entry(key, val)] else s + [Entry(key, val)]
  }

  function Lookup<K(==), V>(s: seq<Entry<K, V>>, key: K): Option<V> {
    var i := IndexOf(s, key);
    if i < |s| then Some(s[i].val) else None
  }

  /** The position j had before position i was taken out. */
  function Gap(i: nat, j: nat): nat {
    if j < i then j else j + 1
  }

  function RemoveAt<T>(s: seq<T>, i: nat): (r: seq<T>)
    requires i < |s|
    ensures |r| == |s| - 1
  {
    s[..i] + s[i + 1..]
  }

  ghost predicate AllDifferent<T>(s: seq<T>) {
    forall i, j :: 0 <= i < j < |s| ==> s[i] != s[j]
  }

  lemma RemoveDifferent<T>(s: seq<T>, i: nat)
    requires i < |s| && AllDifferent(s)
    ensures AllDifferent(RemoveAt(s, i)) && s[i] !in RemoveAt(s, i)
  {
  }

  /** Drop the first entry with the key, if there is one. */
  function Drop<K(==), V>(s: seq<Entry<K, V>>, key: K): seq<Entry<K, V>> {
    if s == [] then [] else if s[0].key == key then s[1..] else [s[0]] + Drop(s[1..], key)
  }

  lemma RemoveBehind<T>(s: seq<T>, i: nat)
    requires i + 1 < |s|
    ensures RemoveAt(s, i + 1) == [s[0]] + RemoveAt(s[1..], i)
  {
    assert s[1..][..i] == s[1..i + 1] && s[1..][i + 1..] == s[i + 2..];
  }

  lemma {:induction false} DropIs<K, V>(s: seq<Entry<K, V>>, key: K)
    ensures Drop(s, key) == if IndexOf(s, key) < |s| then RemoveAt(s, IndexOf(s, key)) else s
  {
    if s != [] && s[0].key != key {
      var rest, i := s[1..], IndexOf(s[1..], key);
      DropIs(rest, key);
      if i < |rest| {
        RemoveBehind(s, i);
        assert Drop(s, key) == [s[0]] + Drop(rest, key) == [s[0]] + RemoveAt(rest, i);
      } else {
        assert Drop(s, key) == [s[0]] + rest == s;
      }
    }
  }

  // ---------------------------------------------------------------- the map and the order of insertion

  function Keys<K, V>(s: seq<Entry<K, V>>): (ks: seq<K>)
    ensures |ks| == |s| && forall i :: 0 <= i < |s| ==> ks[i] == s[i].key
  {
    seq(|s|, i requires 0 <= i < |s| => s[i].key)
  }

  ghost function ToMap<K, V>(s: seq<Entry<K, V>>): map<K, V> {
    map k | k in Keys(s) && Lookup(s, k).Some? :: Lookup(s, k).value
  }

  function Without<K(==)>(ks: seq<K>, key: K): seq<K> {
    if ks == [] then []
    else if ks[0] == key then Without(ks[1..], key)
    else [ks[0]] + Without(ks[1..], key)
  }

  lemma LookupIsMembership<K, V>(s: seq<Entry<K, V>>, key: K)
    ensures Lookup(s, key).Some? <==> key in Keys(s)
    ensures key in Keys(s) <==> key in ToMap(s)
  {
    var i := IndexOf(s, key);
    if key in Keys(s) {
      var j :| 0 <= j < |s| && Keys(s)[j] == key;
      assert s[j].key == key;
    }
    if i < |s| {
      assert Keys(s)[i] == key;
    }
  }

  /** With unique keys every entry is the one its key finds. */
  lemma LookupAt<K, V>(s: seq<Entry<K, V>>, i: nat)
    requires UniqueKeys(s) && i < |s|
    ensures IndexOf(s, s[i].key) == i && Lookup(s, s[i].key) == Some(s[i].val)
  {
  }

  /** Two lists stand for the same map as soon as every lookup agrees. */
  lemma InMap<K, V>(s: seq<Entry<K, V>>, k: K)
    ensures k in ToMap(s) <==> Lookup(s, k).Some?
    ensures k in ToMap(s) ==> ToMap(s)[k] == Lookup(s, k).value
  {
    LookupIsMembership(s, k);
  }

  /** Put is the map update; a new key comes last, an old one keeps its place. */
  lemma PutRefines<K, V>(s: seq<Entry<K, V>>, key: K, val: V)
    requires UniqueKeys(s)
    ensures UniqueKeys(Put(s, key, val))
    ensures ToMap(Put(s, key, val)) == ToMap(s)[key := val]
    ensures Keys(Put(s, key, val)) == if key in ToMap(s) then Keys(s) else Keys(s) + [key]
  {
    PutUpdates(s, key, val);
    InMap(s, key);
  }

  lemma PutUpdates<K, V>(s: seq<Entry<K, V>>, key: K, val: V)
    ensures ToMap(Put(s, key, val)) == ToMap(s)[key := val]
  {
    var m, n := ToMap(Put(s, key, val)), ToMap(s)[key := val];
    forall k ensures k in m <==> k in n {
      LookupPut(s, key, val, k);
      InMap(s, k);
      InMap(Put(s, key, val), k);
    }
    forall k | k in m ensures m[k] == n[k] {
      LookupPut(s, key, val, k);
      InMap(s, k);
      InMap(Put(s, key, val), k);
    }
  }

  lemma LookupPut<K, V>(s: seq<Entry<K, V>>, key: K, val: V, k: K)
    ensures Lookup(Put(s, key, val), k) == if k == key then Some(val) else Lookup(s, k)
  {
    var t, i := Put(s, key, val), IndexOf(s, key);
    FirstIs(t, k, if k == key then i else if IndexOf(s, k) == |s| then |t| else IndexOf(s, k));
  }

  lemma FirstIs<K, V>(s: seq<Entry<K, V>>, key: K, i: nat)
    requires i <= |s| && (i < |s| ==> s[i].key == key) && forall j :: 0 <= j < i ==> s[j].key != key
    ensures IndexOf(s, key) == i
  {
  }

  /** Drop is the map removal; the other keys keep their order. */
  lemma DropRefines<K, V>(s: seq<Entry<K, V>>, key: K)
    requires UniqueKeys(s)
    ensures UniqueKeys(Drop(s, key))
    ensures ToMap(Drop(s, key)) == ToMap(s) - {key}
    ensures Keys(Drop(s, key)) == Without(Keys(s), key)
  {
    DropUpdates(s, key);
    DropKeys(s, key);
    DropUnique(s, key);
  }

  lemma RemoveUnique<K, V>(s: seq<Entry<K, V>>, i: nat)
    requires UniqueKeys(s) && i < |s|
    ensures UniqueKeys(RemoveAt(s, i))
  {
    var t := RemoveAt(s, i);
    assert forall j :: 0 <= j < |t| ==> t[j] == s[Gap(i, j)];
  }

  lemma RemoveLookup<K, V>(s: seq<Entry<K, V>>, i: nat, k: K)
    requires UniqueKeys(s) && i < |s|
    ensures Lookup(RemoveAt(s, i), k) == if k == s[i].key then None else Lookup(s, k)
  {
    var t, j := RemoveAt(s, i), IndexOf(s, k);
    assert forall n :: 0 <= n < |t| ==> t[n] == s[Gap(i, n)];
    FirstIs(t, k, if k == s[i].key then |t| else if j < i then j else if j == |s| then |t| else j - 1);
  }

  lemma DropUnique<K, V>(s: seq<Entry<K, V>>, key: K)
    requires UniqueKeys(s)
    ensures UniqueKeys(Drop(s, key))
  {
    DropIs(s, key);
    if IndexOf(s, key) < |s| {
      RemoveUnique(s, IndexOf(s, key));
    }
  }

  lemma {:induction false} DropKeys<K, V>(s: seq<Entry<K, V>>, key: K)
    requires UniqueKeys(s)
    ensures Keys(Drop(s, key)) == Without(Keys(s), key)
  {
    if s != [] {
      assert Keys(s)[0] == s[0].key && Keys(s)[1..] == Keys(s[1..]);
      if s[0].key == key {
        WithoutAbsent(Keys(s[1..]), key);
      } else {
        DropKeys(s[1..], key);
        KeysCons(s[0], Drop(s[1..], key));
      }
    }
  }

  lemma KeysCons<K, V>(e: Entry<K, V>, s: seq<Entry<K, V>>)
    ensures Keys([e] + s) == [e.key] + Keys(s)
  {
  }

  lemma DropUpdates<K, V>(s: seq<Entry<K, V>>, key: K)
    requires UniqueKeys(s)
    ensures ToMap(Drop(s, key)) == ToMap(s) - {key}
  {
    var m, n := ToMap(Drop(s, key)), ToMap(s) - {key};
    forall k ensures k in m <==> k in n {
      LookupDrop(s, key, k);
      InMap(s, k);
      InMap(Drop(s, key), k);
    }
    forall k | k in m ensures m[k] == n[k] {
      LookupDrop(s, key, k);
      InMap(s, k);
      InMap(Drop(s, key), k);
    }
  }

  lemma LookupDrop<K, V>(s: seq<Entry<K, V>>, key: K, k: K)
    requires UniqueKeys(s)
    ensures Lookup(Drop(s, key), k) == if k == key then None else Lookup(s, k)
  {
    DropIs(s, key);
    if IndexOf(s, key) < |s| {
      RemoveLookup(s, IndexOf(s, key), k);
    }
  }

  lemma {:induction false} WithoutAbsent<K>(ks: seq<K>, key: K)
    requires key !in ks
    ensures Without(ks, key) == ks
  {
    if ks != [] {
      WithoutAbsent(ks[1..], key);
    }
  }

  // ---------------------------------------------------------------- operations and their runs

  /** Replace or append what depends on the value before; drop a key; drop the first value of a kind. */
  datatype Op<!K, !V> = Update(key: K, f: Option<V> -> V) | Remove(key: K) | RemoveFirst(p: V -> bool)

  function FirstWhere<K, V>(s: seq<Entry<K, V>>, p: V -> bool): (i: nat)
    ensures i <= |s|
    ensures i < |s| ==> p(s[i].val)
    ensures forall j :: 0 <= j < i ==> !p(s[j].val)
  {
    if s == [] || p(s[0].val) then 0 else 1 + FirstWhere(s[1..], p)
  }

  lemma FirstWhereIs<K, V>(s: seq<Entry<K, V>>, p: V -> bool, i: nat)
    requires i <= |s| && (i < |s| ==> p(s[i].val)) && forall j :: 0 <= j < i ==> !p(s[j].val)
    ensures FirstWhere(s, p) == i
  {
  }

  /** What the linked lists do. */
  function Step<K(==), V>(s: seq<Entry<K, V>>, op: Op<K, V>): seq<Entry<K, V>> {
    match op
    case Update(key, f) => Put(s, key, f(Lookup(s, key)))
    case Remove(key) => Drop(s, key)
    case RemoveFirst(p) => var i := FirstWhere(s, p); if i < |s| then RemoveAt(s, i) else s
  }

  function Run<K(==), V>(s: seq<Entry<K, V>>, ops: seq<Op<K, V>>): seq<Entry<K, V>>
    decreases |ops|
  {
    if ops == [] then s else Run(Step(s, ops[0]), ops[1..])
  }

  /** A map and the order in which its keys came in. */
  datatype Ordered<!K, V> = Ordered(m: map<K, V>, order: seq<K>)

  ghost function Abstract<K, V>(s: seq<Entry<K, V>>): Ordered<K, V> {
    Ordered(ToMap(s), Keys(s))
  }

  /** The oldest key whose value is of the kind. */
  function OldestWhere<K(==), V>(o: Ordered<K, V>, p: V -> bool): Option<K>
    decreases |o.order|
  {
    if o.order == [] then None
    else if o.order[0] in o.m && p(o.m[o.order[0]]) then Some(o.order[0])
    else OldestWhere(Ordered(o.m, o.order[1..]), p)
  }

  function Forget<K(==), V>(o: Ordered<K, V>, key: K): Ordered<K, V> {
    Ordered(o.m - {key}, Without(o.order, key))
  }

  function MapStep<K(==), V>(o: Ordered<K, V>, op: Op<K, V>): Ordered<K, V> {
    match op
    case Update(key, f) =>
      Ordered(o.m[key := f(if key in o.m then Some(o.m[key]) else None)],
              if key in o.m then o.order else o.order + [key])
    case Remove(key) => Forget(o, key)
    case RemoveFirst(p) =>
      var oldest := OldestWhere(o, p);
      if oldest.Some? then Forget(o, oldest.value) else o
  }

  function MapRun<K(==), V>(o: Ordered<K, V>, ops: seq<Op<K, V>>): Ordered<K, V>
    decreases |ops|
  {
    if ops == [] then o else MapRun(MapStep(o, ops[0]), ops[1..])
  }

  lemma {:induction false} OldestIsFirst<K, V>(m: map<K, V>, s: seq<Entry<K, V>>, p: V -> bool)
    requires forall i :: 0 <= i < |s| ==> s[i].key in m && m[s[i].key] == s[i].val
    ensures var i := FirstWhere(s, p);
            OldestWhere(Ordered(m, Keys(s)), p) == if i < |s| then Some(s[i].key) else None
  {
    if s != [] {
      assert Keys(s)[0] == s[0].key && Keys(s)[1..] == Keys(s[1..]);
      OldestIsFirst(m, s[1..], p);
    }
  }

  lemma StepRefines<K, V>(s: seq<Entry<K, V>>, op: Op<K, V>)
    requires UniqueKeys(s)
    ensures UniqueKeys(Step(s, op))
    ensures Abstract(Step(s, op)) == MapStep(Abstract(s), op)
  {
    match op
    case Update(key, f) =>
      InMap(s, key);
      PutRefines(s, key, f(Lookup(s, key)));
    case Remove(key) =>
      DropRefines(s, key);
    case RemoveFirst(p) =>
      RemoveFirstRefines(s, p);
  }

  lemma RemoveFirstRefines<K, V>(s: seq<Entry<K, V>>, p: V -> bool)
    requires UniqueKeys(s)
    ensures UniqueKeys(Step(s, RemoveFirst(p)))
    ensures Abstract(Step(s, RemoveFirst(p))) == MapStep(Abstract(s), RemoveFirst(p))
  {
    OldestInMap(s, p);
    var i := FirstWhere(s, p);
    if i < |s| {
      FirstIsDropped(s, p);
      DropRefines(s, s[i].key);
    }
  }

  lemma OldestInMap<K, V>(s: seq<Entry<K, V>>, p: V -> bool)
    requires UniqueKeys(s)
    ensures var i := FirstWhere(s, p); OldestWhere(Abstract(s), p) == if i < |s| then Some(s[i].key) else None
  {
    forall i | 0 <= i < |s| ensures s[i].key in ToMap(s) && ToMap(s)[s[i].key] == s[i].val {
      LookupAt(s, i);
      InMap(s, s[i].key);
    }
    OldestIsFirst(ToMap(s), s, p);
  }

  lemma FirstIsDropped<K, V>(s: seq<Entry<K, V>>, p: V -> bool)
    requires UniqueKeys(s) && FirstWhere(s, p) < |s|
    ensures Step(s, RemoveFirst(p)) == Drop(s, s[FirstWhere(s, p)].key)
  {
    var i := FirstWhere(s, p);
    LookupAt(s, i);
    DropIs(s, s[i].key);
  }

  /** After any sequence of operations the keys are unique, and the list is the insertion-ordered map. */
  lemma {:induction false} RunRefines<K, V>(s: seq<Entry<K, V>>, ops: seq<Op<K, V>>)
    requires UniqueKeys(s)
    ensures UniqueKeys(Run(s, ops))
    ensures Abstract(Run(s, ops)) == MapRun(Abstract(s), ops)
    decreases |ops|
  {
    if ops != [] {
      StepRefines(s, ops[0]);
      RunRefines(Step(s, ops[0]), ops[1..]);
    }
  }
}
