/** The parser of src/cJSON.c on linked items: what parse_value, parse_array and parse_object build (src/cJSON.c:267-349, 409-443). */
module JsonHeap {
  import opened DecimalText
  import opened JsonTree
  import P = JsonParse

  datatype Kind = KFalse | KTrue | KNull | KNumber | KString | KArray | KObject

  /** A cJSON item, zeroed when it is made. `kids` are the items of its chain, `subs` what lies below each. */
  class Item {
    var kind: Kind
    var number: real
    var text: string
    var key: string
    var next: Item?
    var prev: Item?
    var child: Item?
    ghost var kids: seq<Item>
    ghost var subs: seq<set<Item>>

    /** cJSON_New_Item. */
    constructor ()
      ensures kind == KFalse && key == "" && child == null && next == null && prev == null && kids == [] && subs == []
    {
      kind, number, text, key := KFalse, 0.0, "", "";
      next, prev, child, kids, subs := null, null, null, [], [];
    }
  }

  function KidAt(kids: seq<Item>, i: int): Item? {
    if 0 <= i < |kids| then kids[i] else null
  }

  // ---------------------------------------------------------------- what an item stands for

  /** The kids are different items, and nothing is below two of them or among them and below one. */
  ghost predicate Apart(kids: seq<Item>, subs: seq<set<Item>>, below: set<Item>) {
    && |kids| == |subs|
    && (forall i :: 0 <= i < |kids| ==> kids[i] in below && subs[i] <= below)
    && (forall i, j :: 0 <= i < |kids| && 0 <= j < |kids| ==> kids[i] !in subs[j])
    && (forall i, j :: 0 <= i < j < |kids| ==> kids[i] != kids[j] && subs[i] !! subs[j])
  }

  /** A doubly linked chain that ends. */
  ghost predicate Linked(first: Item?, kids: seq<Item>, below: set<Item>)
    requires forall i :: 0 <= i < |kids| ==> kids[i] in below
    reads below
  {
    && first == KidAt(kids, 0)
    && (forall i {:trigger kids[i].next} :: 0 <= i < |kids| ==> kids[i].next == KidAt(kids, i + 1))
    && (forall i {:trigger kids[i].prev} :: 0 <= i < |kids| ==> kids[i].prev == KidAt(kids, i - 1))
  }

  /** The item, with the items below it, is a tree that stands for the value. */
  ghost predicate Denotes(item: Item, j: Json, below: set<Item>)
    reads item`kind, item`number, item`text, item`child, item`kids, item`subs, below
    decreases j
  {
    match j
    case Null => item.kind == KNull
    case False => item.kind == KFalse
    case True => item.kind == KTrue
    case Number(x) => item.kind == KNumber && item.number == x
    case String(s) => item.kind == KString && item.text == s
    case Array(items) =>
      && item.kind == KArray && item !in below && Apart(item.kids, item.subs, below)
      && Linked(item.child, item.kids, below) && ItemsDenote(item.kids, item.subs, 0, items, below)
    case Object(members) =>
      && item.kind == KObject && item !in below && Apart(item.kids, item.subs, below)
      && Linked(item.child, item.kids, below) && MembersDenote(item.kids, item.subs, 0, members, below)
  }

  ghost predicate ItemsDenote(kids: seq<Item>, subs: seq<set<Item>>, i: nat, items: Items, below: set<Item>)
    requires Apart(kids, subs, below)
    reads below
    decreases items
  {
    match items
    case NoItem => i == |kids|
    case Item(j, rest) => i < |kids| && Denotes(kids[i], j, subs[i]) && ItemsDenote(kids, subs, i + 1, rest, below)
  }

  ghost predicate MembersDenote(kids: seq<Item>, subs: seq<set<Item>>, i: nat, members: Members, below: set<Item>)
    requires Apart(kids, subs, below)
    reads below
    decreases members
  {
    match members
    case NoMember => i == |kids|
    case Member(key, j, rest) =>
      && i < |kids| && kids[i].key == key && Denotes(kids[i], j, subs[i])
      && MembersDenote(kids, subs, i + 1, rest, below)
  }

  /** An item stands for at most one value. */
  lemma {:induction false} DenotesOne(item: Item, j: Json, k: Json, below: set<Item>)
    requires Denotes(item, j, below) && Denotes(item, k, below)
    ensures j == k
    decreases j
  {
    if j.Array? {
      ItemsDenoteOne(item.kids, item.subs, 0, j.items, k.items, below);
    } else if j.Object? {
      MembersDenoteOne(item.kids, item.subs, 0, j.members, k.members, below);
    }
  }

  lemma {:induction false} ItemsDenoteOne(kids: seq<Item>, subs: seq<set<Item>>, i: nat, a: Items, b: Items, below: set<Item>)
    requires Apart(kids, subs, below) && ItemsDenote(kids, subs, i, a, below) && ItemsDenote(kids, subs, i, b, below)
    ensures a == b
    decreases a
  {
    if a.Item? {
      DenotesOne(kids[i], a.value, b.value, subs[i]);
      ItemsDenoteOne(kids, subs, i + 1, a.next, b.next, below);
    }
  }

  lemma {:induction false} MembersDenoteOne(kids: seq<Item>, subs: seq<set<Item>>, i: nat, a: Members, b: Members, below: set<Item>)
    requires Apart(kids, subs, below) && MembersDenote(kids, subs, i, a, below) && MembersDenote(kids, subs, i, b, below)
    ensures a == b
    decreases a
  {
    if a.Member? {
      DenotesOne(kids[i], a.value, b.value, subs[i]);
      MembersDenoteOne(kids, subs, i + 1, a.next, b.next, below);
    }
  }

  /** The type of an item says which kind of value it stands for. */
  lemma DenotedKind(item: Item, j: Json, below: set<Item>)
    requires Denotes(item, j, below)
    ensures (item.kind == KNull <==> j == Null) && (item.kind == KFalse <==> j == False) && (item.kind == KTrue <==> j == True)
    ensures item.kind == KNumber <==> j == Number(item.number)
    ensures item.kind == KString <==> j == String(item.text)
    ensures (item.kind == KArray <==> j.Array?) && (item.kind == KObject <==> j.Object?)
  {
  }

  /** A walk along the children of an array has come to child, with these elements ahead. */
  ghost predicate ItemsAhead(parent: Item, child: Item?, n: nat, items: Items, below: set<Item>)
    reads parent`kids, parent`subs, parent`child, below
  {
    && Apart(parent.kids, parent.subs, below) && Linked(parent.child, parent.kids, below)
    && child == KidAt(parent.kids, n) && ItemsDenote(parent.kids, parent.subs, n, items, below)
  }

  ghost predicate MembersAhead(parent: Item, child: Item?, n: nat, members: Members, below: set<Item>)
    reads parent`kids, parent`subs, parent`child, below
  {
    && Apart(parent.kids, parent.subs, below) && Linked(parent.child, parent.kids, below)
    && child == KidAt(parent.kids, n) && MembersDenote(parent.kids, parent.subs, n, members, below)
  }

  lemma NextItem(parent: Item, child: Item?, n: nat, items: Items, below: set<Item>)
    requires ItemsAhead(parent, child, n, items, below)
    ensures child == null <==> items.NoItem?
    ensures child != null ==> n < |parent.subs| && Denotes(child, items.value, parent.subs[n])
                              && ItemsAhead(parent, child.next, n + 1, items.next, below)
  {
    if items.Item? {
      assert parent.kids[n].next == KidAt(parent.kids, n + 1);
    }
  }

  lemma NextMember(parent: Item, child: Item?, n: nat, members: Members, below: set<Item>)
    requires MembersAhead(parent, child, n, members, below)
    ensures child == null <==> members.NoMember?
    ensures child != null ==> n < |parent.subs| && Denotes(child, members.value, parent.subs[n]) && child.key == members.key
                              && MembersAhead(parent, child.next, n + 1, members.next, below)
  {
    if members.Member? {
      assert parent.kids[n].next == KidAt(parent.kids, n + 1);
    }
  }

  /** Forward and back: each item is the one before the one behind it, the first has none before it and the last none behind. */
  lemma LinkedBothWays(first: Item?, kids: seq<Item>, below: set<Item>, i: nat)
    requires i < |kids| && (forall k :: 0 <= k < |kids| ==> kids[k] in below) && Linked(first, kids, below)
    ensures first == kids[0] && first.prev == null
    ensures if i + 1 < |kids| then kids[i].next == kids[i + 1] && kids[i].next.prev == kids[i] else kids[i].next == null
  {
    assert kids[i].next == KidAt(kids, i + 1) && kids[0].prev == KidAt(kids, -1);
    if i + 1 < |kids| {
      assert kids[i + 1].prev == KidAt(kids, i);
    }
  }

  // ---------------------------------------------------------------- a chain while it grows

  /** A key and a value for each item, whatever its links; the items of an array have no key. */
  ghost predicate Filled(kids: seq<Item>, subs: seq<set<Item>>, done: seq<(string, Json)>, below: set<Item>)
    reads below
  {
    && Apart(kids, subs, below) && |done| == |kids|
    && forall i {:trigger kids[i].key} :: 0 <= i < |kids| ==> kids[i].key == done[i].0 && Denotes(kids[i], done[i].1, subs[i])
  }

  /** The chain so far. */
  ghost predicate Row(first: Item?, kids: seq<Item>, subs: seq<set<Item>>, done: seq<(string, Json)>, below: set<Item>)
    reads below
  {
    Filled(kids, subs, done, below) && Linked(first, kids, below)
  }

  function ItemsOf(done: seq<(string, Json)>): Items {
    if done == [] then NoItem else Items.Item(done[0].1, ItemsOf(done[1..]))
  }

  function MembersOf(done: seq<(string, Json)>): Members {
    if done == [] then NoMember else Member(done[0].0, done[0].1, MembersOf(done[1..]))
  }

  lemma {:induction false} RowDenotesItems(kids: seq<Item>, subs: seq<set<Item>>, done: seq<(string, Json)>, i: nat, below: set<Item>)
    requires Apart(kids, subs, below) && |done| == |kids| && i <= |kids|
    requires forall k :: 0 <= k < |kids| ==> Denotes(kids[k], done[k].1, subs[k])
    ensures ItemsDenote(kids, subs, i, ItemsOf(done[i..]), below)
    decreases |kids| - i
  {
    if i < |kids| {
      assert done[i..][1..] == done[i + 1..];
      RowDenotesItems(kids, subs, done, i + 1, below);
    }
  }

  lemma {:induction false} RowDenotesMembers(kids: seq<Item>, subs: seq<set<Item>>, done: seq<(string, Json)>, i: nat, below: set<Item>)
    requires Apart(kids, subs, below) && |done| == |kids| && i <= |kids|
    requires forall k :: 0 <= k < |kids| ==> kids[k].key == done[k].0 && Denotes(kids[k], done[k].1, subs[k])
    ensures MembersDenote(kids, subs, i, MembersOf(done[i..]), below)
    decreases |kids| - i
  {
    if i < |kids| {
      assert done[i..][1..] == done[i + 1..];
      RowDenotesMembers(kids, subs, done, i + 1, below);
    }
  }

  // ---------------------------------------------------------------- the specification, one element at a time

  /** An element, or a member with its key, and the white space behind it. */
  function ParseOne(keyed: bool, v: string): (r: P.Parsed<(string, Json)>)
    ensures r.Ok? ==> |r.rest| < |v|
  {
    if keyed then
      var (key, v1) :- P.ParseString(P.Skip(v));
      var v2 := P.Skip(v1);
      if Head(v2) != ':' then P.Fail(v2)
      else
        var (j, v3) :- P.ParseValue(P.Skip(v2[1..]));
        P.Ok((key, j), P.Skip(v3))
    else
      var (j, v1) :- P.ParseValue(P.Skip(v));
      P.Ok(("", j), P.Skip(v1))
  }

  lemma ElementsHaveNoKey(v: string)
    ensures ParseOne(false, v).Ok? ==> ParseOne(false, v).value.0 == ""
  {
  }

  function Close(keyed: bool): char {
    if keyed then '}' else ']'
  }

  function ParseMany(keyed: bool, v: string): (r: P.Parsed<seq<(string, Json)>>)
    decreases |v|
  {
    var (one, v1) :- ParseOne(keyed, v);
    if Head(v1) == ',' then
      var (more, rest) :- ParseMany(keyed, v1[1..]);
      P.Ok([one] + more, rest)
    else if Head(v1) == Close(keyed) then P.Ok([one], v1[1..])
    else P.Fail(v1)
  }

  /** The loop condition and what is behind the loop, from the text behind an element. */
  function ParseMore(keyed: bool, v: string): P.Parsed<seq<(string, Json)>> {
    if Head(v) == ',' then ParseMany(keyed, v[1..])
    else if Head(v) == Close(keyed) then P.Ok([], v[1..])
    else P.Fail(v)
  }

  function Join(done: seq<(string, Json)>, more: P.Parsed<seq<(string, Json)>>): P.Parsed<seq<(string, Json)>> {
    if more.Ok? then P.Ok(done + more.value, more.rest) else more
  }

  /** What is known behind an element, when the text started with those done. */
  predicate Ahead(whole: P.Parsed<seq<(string, Json)>>, keyed: bool, done: seq<(string, Json)>, v: string) {
    whole == Join(done, ParseMore(keyed, v))
  }

  lemma FirstStep(keyed: bool, v: string)
    ensures match ParseOne(keyed, v)
      case Ok(one, v1) => Ahead(ParseMany(keyed, v), keyed, [one], v1)
      case Fail(ep) => ParseMany(keyed, v) == P.Fail(ep)
      case Malformed => ParseMany(keyed, v) == P.Malformed
  {
    if ParseOne(keyed, v).Ok? {
      assert [ParseOne(keyed, v).value] + [] == [ParseOne(keyed, v).value];
    }
  }

  lemma NextStep(whole: P.Parsed<seq<(string, Json)>>, keyed: bool, done: seq<(string, Json)>, v: string)
    requires Ahead(whole, keyed, done, v) && Head(v) == ','
    ensures match ParseOne(keyed, v[1..])
      case Ok(one, v1) => Ahead(whole, keyed, done + [one], v1)
      case Fail(ep) => whole == P.Fail(ep)
      case Malformed => whole == P.Malformed
  {
    FirstStep(keyed, v[1..]);
    var r := ParseOne(keyed, v[1..]);
    if r.Ok? && ParseMore(keyed, r.rest).Ok? {
      var more := ParseMore(keyed, r.rest).value;
      assert done + ([r.value] + more) == (done + [r.value]) + more;
    }
  }

  lemma LastStep(whole: P.Parsed<seq<(string, Json)>>, keyed: bool, done: seq<(string, Json)>, v: string)
    requires Ahead(whole, keyed, done, v) && Head(v) != ','
    ensures whole == if Head(v) == Close(keyed) then P.Ok(done, v[1..]) else P.Fail(v)
  {
    assert done + [] == done;
  }

  lemma {:induction false} ManyItems(v: string)
    ensures match ParseMany(false, v)
      case Ok(done, rest) => P.ParseItems(v) == P.Ok(ItemsOf(done), rest)
      case Fail(ep) => P.ParseItems(v) == P.Fail(ep)
      case Malformed => P.ParseItems(v) == P.Malformed
    decreases |v|
  {
    var one := ParseOne(false, v);
    if one.Ok? && Head(one.rest) == ',' {
      ManyItems(one.rest[1..]);
      var more := ParseMany(false, one.rest[1..]);
      if more.Ok? {
        assert ([one.value] + more.value)[1..] == more.value;
      }
    }
  }

  lemma {:induction false} ManyMembers(v: string)
    ensures match ParseMany(true, v)
      case Ok(done, rest) => P.ParseMembers(v) == P.Ok(MembersOf(done), rest)
      case Fail(ep) => P.ParseMembers(v) == P.Fail(ep)
      case Malformed => P.ParseMembers(v) == P.Malformed
    decreases |v|
  {
    var one := ParseOne(true, v);
    if one.Ok? && Head(one.rest) == ',' {
      ManyMembers(one.rest[1..]);
      var more := ParseMany(true, one.rest[1..]);
      if more.Ok? {
        assert ([one.value] + more.value)[1..] == more.value;
      }
    }
  }

  // ---------------------------------------------------------------- the parser

  /** What a parse function leaves: the text behind the value, or the offending text. */
  ghost predicate Left<T>(r: P.Parsed<T>, ok: bool, rest: string) {
    match r
    case Ok(_, behind) => ok && rest == behind
    case Fail(ep) => !ok && rest == ep
    case Malformed => false
  }

  /** parse_value, into a zeroed item. */
  method ParseValue(item: Item, v: string) returns (ok: bool, rest: string, ghost below: set<Item>)
    requires !P.ParseValue(v).Malformed? && item.child == null
    modifies item`kind, item`number, item`text, item`child, item`kids, item`subs
    ensures fresh(below) && Left(P.ParseValue(v), ok, rest)
    ensures ok ==> Denotes(item, P.ParseValue(v).value, below)
    decreases |v|, 1
  {
    below, ok := {}, true;
    if "null" <= v {
      item.kind, rest := KNull, v[4..];
    } else if "false" <= v {
      item.kind, rest := KFalse, v[5..];
    } else if "true" <= v {
      item.kind, rest := KTrue, v[4..];
    } else if Head(v) == '\"' {
      var r := P.ParseString(v);
      item.kind, item.text, rest := KString, r.value, r.rest;
    } else if Head(v) == '-' || IsDigit(Head(v)) {
      var (x, behind) := P.ParseNumber(v);
      item.kind, item.number, rest := KNumber, x, behind;
    } else if Head(v) == '[' || Head(v) == '{' {
      ok, rest, below := ParseKids(item, v, Head(v) == '{');
    } else {
      ok, rest := false, v;
    }
  }

  function ValueOf(keyed: bool, done: seq<(string, Json)>): Json {
    if keyed then Object(MembersOf(done)) else Array(ItemsOf(done))
  }

  /** The same result, with the children as one value. */
  predicate IsValueOf(r: P.Parsed<Json>, keyed: bool, many: P.Parsed<seq<(string, Json)>>) {
    match many
    case Ok(done, rest) => r == P.Ok(ValueOf(keyed, done), rest)
    case Fail(ep) => r == P.Fail(ep)
    case Malformed => r == P.Malformed
  }

  lemma ArrayIs(v: string)
    requires Head(v) == '['
    ensures P.ParseValue(v) ==
      if Head(P.Skip(v[1..])) == ']' then P.Ok(Array(NoItem), P.Skip(v[1..])[1..])
      else var r := P.ParseItems(P.Skip(v[1..]));
        if r.Ok? then P.Ok(Array(r.value), r.rest) else if r.Fail? then P.Fail(r.ep) else P.Malformed
  {
    assert v[0] == '[' && !("null" <= v) && !("false" <= v) && !("true" <= v);
  }

  lemma ObjectIs(v: string)
    requires Head(v) == '{'
    ensures P.ParseValue(v) ==
      if Head(P.Skip(v[1..])) == '}' then P.Ok(Object(NoMember), P.Skip(v[1..])[1..])
      else var r := P.ParseMembers(P.Skip(v[1..]));
        if r.Ok? then P.Ok(Object(r.value), r.rest) else if r.Fail? then P.Fail(r.ep) else P.Malformed
  {
    assert v[0] == '{' && !("null" <= v) && !("false" <= v) && !("true" <= v);
  }

  /** Brackets and what is in them. */
  lemma ValueIsMany(v: string, keyed: bool)
    requires Head(v) == if keyed then '{' else '['
    ensures Head(P.Skip(v[1..])) == Close(keyed) ==> P.ParseValue(v) == P.Ok(ValueOf(keyed, []), P.Skip(v[1..])[1..])
    ensures Head(P.Skip(v[1..])) != Close(keyed) ==> IsValueOf(P.ParseValue(v), keyed, ParseMany(keyed, P.Skip(v[1..])))
  {
    if keyed {
      ObjectIs(v);
      ManyMembers(P.Skip(v[1..]));
    } else {
      ArrayIs(v);
      ManyItems(P.Skip(v[1..]));
    }
  }

  /** parse_array and parse_object, which share their loop here. */
  method ParseKids(item: Item, v: string, keyed: bool) returns (ok: bool, rest: string, ghost below: set<Item>)
    requires Head(v) == (if keyed then '{' else '[') && !P.ParseValue(v).Malformed? && item.child == null
    modifies item`kind, item`child, item`kids, item`subs
    ensures fresh(below) && Left(P.ParseValue(v), ok, rest)
    ensures ok ==> Denotes(item, P.ParseValue(v).value, below)
    decreases |v|, 0
  {
    ValueIsMany(v, keyed);
    var value := P.Skip(v[1..]);
    if Head(value) == Close(keyed) {
      NoKids(item, keyed);
      return true, value[1..], {};
    }
    ok, rest, below := SomeKids(item, value, keyed, P.ParseValue(v));
  }

  method NoKids(item: Item, keyed: bool)
    requires item.child == null
    modifies item`kind, item`kids, item`subs
    ensures Denotes(item, ValueOf(keyed, []), {})
  {
    item.kind := if keyed then KObject else KArray;
    item.kids, item.subs := [], [];
    RowDenotes(item, keyed, [], [], [], {});
  }

  /** The children up to the closing bracket, which make the value. */
  method SomeKids(item: Item, value: string, keyed: bool, ghost r: P.Parsed<Json>)
    returns (ok: bool, rest: string, ghost below: set<Item>)
    requires IsValueOf(r, keyed, ParseMany(keyed, value)) && !r.Malformed?
    modifies item`kind, item`child, item`kids, item`subs
    ensures fresh(below) && Left(r, ok, rest)
    ensures ok ==> Denotes(item, r.value, below)
    decreases |value|, 6
  {
    item.kind := if keyed then KObject else KArray;
    ghost var kids, subs, done;
    var first;
    ok, rest, first, kids, subs, done, below := ParseRow(keyed, value);
    item.child, item.kids, item.subs := first, kids, subs;
    if ok {
      RowDenotes(item, keyed, kids, subs, done, below);
    }
  }

  lemma RowDenotes(item: Item, keyed: bool, kids: seq<Item>, subs: seq<set<Item>>, done: seq<(string, Json)>, below: set<Item>)
    requires item !in below && item.kids == kids && item.subs == subs && item.kind == (if keyed then KObject else KArray)
    requires Row(item.child, kids, subs, done, below)
    ensures Denotes(item, ValueOf(keyed, done), below)
  {
    assert done[0..] == done;
    assert forall k :: 0 <= k < |kids| ==> kids[k].key == done[k].0 && Denotes(kids[k], done[k].1, subs[k]);
    if keyed {
      RowDenotesMembers(kids, subs, done, 0, below);
    } else {
      RowDenotesItems(kids, subs, done, 0, below);
    }
  }

  /** The chain of children: the first, then one more behind each comma. */
  method ParseRow(keyed: bool, v: string)
    returns (ok: bool, rest: string, first: Item, ghost kids: seq<Item>, ghost subs: seq<set<Item>>,
             ghost done: seq<(string, Json)>, ghost below: set<Item>)
    requires !ParseMany(keyed, v).Malformed?
    ensures fresh(below) && Left(ParseMany(keyed, v), ok, rest)
    ensures ok ==> done == ParseMany(keyed, v).value && Row(first, kids, subs, done, below)
    decreases |v|, 5
  {
    ghost var whole := ParseMany(keyed, v);
    ok, rest, first, kids, subs, done, below := StartRow(keyed, v, whole);
    var child := first;
    while ok && Head(rest) == ','
      invariant fresh(below) && (!ok ==> Left(whole, ok, rest))
      invariant ok ==> Growing(first, child, kids, subs, done, below) && |rest| < |v| && Ahead(whole, keyed, done, rest)
      decreases ok, |rest|
    {
      ok, rest, child, kids, subs, done, below := ExtendRow(first, child, keyed, rest, whole, kids, subs, done, below);
    }
    if ok {
      LastStep(whole, keyed, done, rest);
      ok := Head(rest) == Close(keyed);
      rest := if ok then rest[1..] else rest;
    }
  }

  /** A chain of which child is the last item. */
  ghost predicate Growing(first: Item, child: Item, kids: seq<Item>, subs: seq<set<Item>>, done: seq<(string, Json)>, below: set<Item>)
    reads below
  {
    Row(first, kids, subs, done, below) && kids != [] && child == kids[|kids| - 1]
  }

  method StartRow(keyed: bool, v: string, ghost whole: P.Parsed<seq<(string, Json)>>)
    returns (ok: bool, rest: string, first: Item, ghost kids: seq<Item>, ghost subs: seq<set<Item>>,
             ghost done: seq<(string, Json)>, ghost below: set<Item>)
    requires whole == ParseMany(keyed, v) && !whole.Malformed?
    ensures fresh(below) && (!ok ==> Left(whole, ok, rest))
    ensures ok ==> Growing(first, first, kids, subs, done, below) && |rest| < |v| && Ahead(whole, keyed, done, rest)
    decreases |v|, 4
  {
    FirstStep(keyed, v);
    ghost var sub;
    ok, rest, first, sub := FirstItem(keyed, v);
    below := {first} + sub;
    kids, subs, done := [first], [sub], if ok then [ParseOne(keyed, v).value] else [];
  }

  /** One round of the loop. */
  method ExtendRow(first: Item, child: Item, keyed: bool, v: string, ghost whole: P.Parsed<seq<(string, Json)>>,
                   ghost kids: seq<Item>, ghost subs: seq<set<Item>>, ghost done: seq<(string, Json)>, ghost below: set<Item>)
    returns (ok: bool, rest: string, last: Item, ghost kids': seq<Item>, ghost subs': seq<set<Item>>,
             ghost done': seq<(string, Json)>, ghost below': set<Item>)
    requires Growing(first, child, kids, subs, done, below)
    requires Ahead(whole, keyed, done, v) && Head(v) == ',' && !whole.Malformed?
    modifies child`next
    ensures below <= below' && fresh(below' - below) && (!ok ==> Left(whole, ok, rest))
    ensures ok ==> Growing(first, last, kids', subs', done', below') && |rest| < |v| && Ahead(whole, keyed, done', rest)
    decreases |v|, 4
  {
    NextStep(whole, keyed, done, v);
    ghost var one, sub := ParseOne(keyed, v[1..]), {};
    ok, rest, last, sub := AppendItem(first, child, keyed, v[1..], kids, subs, done, below);
    below' := below + {last} + sub;
    kids', subs', done' := kids + [last], subs + [sub], if ok then done + [one.value] else done;
  }

  method FirstItem(keyed: bool, v: string) returns (ok: bool, rest: string, item: Item, ghost sub: set<Item>)
    requires !ParseOne(keyed, v).Malformed?
    ensures fresh(item) && fresh(sub) && Left(ParseOne(keyed, v), ok, rest)
    ensures ok ==> Row(item, [item], [sub], [ParseOne(keyed, v).value], {item} + sub)
    decreases |v|, 3
  {
    item := new Item();
    ok, rest, sub := ParseElement(item, keyed, v);
  }

  /** One round of the loop: a new item linked behind the last one, and parsed into. */
  method AppendItem(first: Item, child: Item, keyed: bool, v: string, ghost kids: seq<Item>, ghost subs: seq<set<Item>>,
                    ghost done: seq<(string, Json)>, ghost below: set<Item>)
    returns (ok: bool, rest: string, item: Item, ghost sub: set<Item>)
    requires Row(first, kids, subs, done, below) && kids != [] && child == kids[|kids| - 1]
    requires !ParseOne(keyed, v).Malformed?
    modifies child`next
    ensures fresh(item) && fresh(sub) && Left(ParseOne(keyed, v), ok, rest)
    ensures ok ==> Row(first, kids + [item], subs + [sub], done + [ParseOne(keyed, v).value], below + {item} + sub)
    decreases |v|, 3
  {
    item := new Item();
    LinkItem(first, child, item, kids, subs, done, below);
    ok, rest, sub := ParseElement(item, keyed, v);
    if ok {
      RowExtends(first, kids, subs, done, below, item, sub, ParseOne(keyed, v).value);
    }
  }

  method LinkItem(first: Item, child: Item, item: Item, ghost kids: seq<Item>, ghost subs: seq<set<Item>>,
                  ghost done: seq<(string, Json)>, ghost below: set<Item>)
    requires Row(first, kids, subs, done, below) && kids != [] && child == kids[|kids| - 1]
    requires item !in below && item.next == null
    modifies child`next, item`prev
    ensures Filled(kids, subs, done, below) && Linked(first, kids + [item], below + {item})
  {
    child.next := item;
    item.prev := child;
    forall i | 0 <= i < |kids| ensures kids[i].key == done[i].0 && Denotes(kids[i], done[i].1, subs[i]) {
      assert old(kids[i].key) == done[i].0;
      assert child !in subs[i] && item !in subs[i];
      assert old(Denotes(kids[i], done[i].1, subs[i]));
    }
    LinksExtend(first, kids, below, item);
  }

  lemma LinksExtend(first: Item, kids: seq<Item>, below: set<Item>, item: Item)
    requires kids != [] && first == kids[0] && forall i :: 0 <= i < |kids| ==> kids[i] in below
    requires forall i {:trigger kids[i].next} :: 0 <= i < |kids| - 1 ==> kids[i].next == kids[i + 1]
    requires forall i {:trigger kids[i].prev} :: 0 <= i < |kids| ==> kids[i].prev == KidAt(kids, i - 1)
    requires kids[|kids| - 1].next == item && item.prev == kids[|kids| - 1] && item.next == null
    ensures Linked(first, kids + [item], below + {item})
  {
    var more := kids + [item];
    forall i | 0 <= i < |more| ensures more[i].next == KidAt(more, i + 1) && more[i].prev == KidAt(more, i - 1) {
      if i < |kids| {
        assert more[i] == kids[i] && kids[i].prev == KidAt(kids, i - 1);
      }
    }
  }

  lemma RowExtends(first: Item, kids: seq<Item>, subs: seq<set<Item>>, done: seq<(string, Json)>, below: set<Item>,
                   item: Item, sub: set<Item>, one: (string, Json))
    requires Filled(kids, subs, done, below) && Linked(first, kids + [item], below + {item})
    requires item !in below && item !in sub && sub !! below && item.key == one.0 && Denotes(item, one.1, sub)
    ensures Row(first, kids + [item], subs + [sub], done + [one], below + {item} + sub)
  {
    var kids', subs', all := kids + [item], subs + [sub], below + {item} + sub;
    var done' := done + [one];
    ApartExtends(kids, subs, below, item, sub);
    forall i | 0 <= i < |kids'| ensures kids'[i].key == done'[i].0 && Denotes(kids'[i], done'[i].1, subs'[i]) {
      if i < |kids| {
        assert kids[i].key == done[i].0;
        assert kids'[i] == kids[i] && subs'[i] == subs[i] && done'[i] == done[i];
      }
    }
    assert Linked(first, kids', all);
  }

  lemma ApartExtends(kids: seq<Item>, subs: seq<set<Item>>, below: set<Item>, item: Item, sub: set<Item>)
    requires Apart(kids, subs, below) && item !in below && item !in sub && sub !! below
    ensures Apart(kids + [item], subs + [sub], below + {item} + sub)
  {
  }

  /** An element, or a member: its string becomes the key. */
  method ParseElement(item: Item, keyed: bool, v: string) returns (ok: bool, rest: string, ghost sub: set<Item>)
    requires !ParseOne(keyed, v).Malformed? && item.child == null && item.key == ""
    modifies item`kind, item`number, item`text, item`child, item`kids, item`subs, item`key
    ensures fresh(sub) && Left(ParseOne(keyed, v), ok, rest)
    ensures ok ==> item.key == ParseOne(keyed, v).value.0 && Denotes(item, ParseOne(keyed, v).value.1, sub)
    decreases |v|, 2
  {
    var value := P.Skip(v);
    sub := {};
    if keyed {
      var r := P.ParseString(value);
      if r.Fail? {
        return false, r.ep, {};
      }
      item.kind, item.key, item.text := KString, r.value, "";
      value := P.Skip(r.rest);
      if Head(value) != ':' {
        return false, value, {};
      }
      value := P.Skip(value[1..]);
    }
    ok, rest, sub := ParseValue(item, value);
    if ok {
      rest := P.Skip(rest);
    }
  }

  /** cJSON_ParseWithOpts: a null pointer and the offending text, or the root. */
  method ParseWithOpts(v: string, requireEnd: bool) returns (root: Item?, rest: string, ghost below: set<Item>)
    requires !P.ParseText(v, requireEnd).Malformed?
    ensures fresh(below) && (root != null ==> fresh(root))
    ensures Left(P.ParseText(v, requireEnd), root != null, rest)
    ensures var r := P.ParseText(v, requireEnd); if r.Ok? then root != null && rest == r.rest else root == null && rest == r.ep
    ensures root != null ==> Denotes(root, P.ParseText(v, requireEnd).value, below)
  {
    var c := new Item();
    var ok;
    ok, rest, below := ParseValue(c, P.Skip(v));
    if !ok {
      return null, rest, below;
    }
    if requireEnd {
      rest := P.Skip(rest);
      if rest != "" {
        return null, rest, below;
      }
    }
    root := c;
  }
}
