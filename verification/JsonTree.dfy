/** JSON trees as cJSON keeps them, and the text print_value renders for them. */
module JsonTree {
  import opened DecimalText
  import opened Wrappers

  /** A cJSON item. `Items` and `Members` are the chains reached through `child` and `next`. */
  datatype Json =
    | Null
    | False
    | True
    | Number(value: real)
    | String(text: string)
    | Array(items: Items)
    | Object(members: Members)

  datatype Items = NoItem | Item(value: Json, next: Items)

  datatype Members = NoMember | Member(key: string, value: Json, next: Members)

  predicate NulFree(s: string) {
    '\0' !in s
  }

  /** Holds(a, s): the buffer starts with the C string s. */
  ghost predicate Holds(a: array<char>, s: string)
    reads a
  {
    |s| < a.Length && (forall i :: 0 <= i < |s| ==> a[i] == s[i]) && a[|s|] == '\0' && NulFree(s)
  }

  predicate IsCInt(x: real) {
    x == x.Floor as real && -0x8000_0000 <= x.Floor <= 0x7FFF_FFFF
  }

  /** Trees whose numbers are C ints and whose strings are C strings. */
  predicate Printable(j: Json) {
    match j
    case Number(x) => IsCInt(x)
    case String(s) => NulFree(s)
    case Array(items) => PrintableItems(items)
    case Object(members) => PrintableMembers(members)
    case _ => true
  }

  predicate PrintableItems(items: Items) {
    items.Item? ==> Printable(items.value) && PrintableItems(items.next)
  }

  predicate PrintableMembers(members: Members) {
    members.Member? ==> NulFree(members.key) && Printable(members.value) && PrintableMembers(members.next)
  }

  /** A pointer into a C string is the text from there on; reading past its end gives the NUL. */
  function Head(v: string): char {
    if v == "" then '\0' else v[0]
  }

  // ---------------------------------------------------------------- printing

  function HexChar(d: nat): char
    requires d < 16
  {
    if d < 10 then d as char + '0' else (d - 10) as char + 'a'
  }

  /** One character of a printed string; the last case is "\\u%04x". */
  function EscapeChar(c: char): string {
    if c == '\\' then "\\\\"
    else if c == '\"' then "\\\""
    else if c > '\U{1F}' then [c]
    else if c == '\U{08}' then "\\b"
    else if c == '\U{0C}' then "\\f"
    else if c == '\n' then "\\n"
    else if c == '\r' then "\\r"
    else if c == '\t' then "\\t"
    else "\\u00" + [HexChar(c as nat / 16), HexChar(c as nat % 16)]
  }

  function Tabs(n: int): string {
    if n <= 0 then "" else "\t" + Tabs(n - 1)
  }

  lemma {:induction false} TabsAreTabs(n: int)
    ensures |Tabs(n)| == (if n < 0 then 0 else n) && forall i :: 0 <= i < |Tabs(n)| ==> Tabs(n)[i] == '\t'
    decreases n
  {
    if n > 0 {
      TabsAreTabs(n - 1);
    }
  }

  // The printers are given with the text that follows: RenderX(x, rest) is what is printed for x,
  // then `rest`. Nothing in them looks at `rest` (ValueAppend and its companions below).

  function When(cond: bool, s: string, rest: string): string {
    if cond then s + rest else rest
  }

  function Escaped(s: string, rest: string): string {
    if s == "" then rest else EscapeChar(s[0]) + Escaped(s[1..], rest)
  }

  function RenderString(s: string, rest: string): string {
    "\"" + Escaped(s, "\"" + rest)
  }

  function RenderValue(j: Json, depth: nat, fmt: bool, rest: string): string
    decreases j, 0
  {
    match j
    case Null => "null" + rest
    case False => "false" + rest
    case True => "true" + rest
    case Number(x) => Decimal(x.Floor) + rest
    case String(s) => RenderString(s, rest)
    case Array(items) => "[" + RenderItems(items, depth + 1, fmt, "]" + rest)
    case Object(members) =>
      if members.NoMember? then "{" + When(fmt, "\n" + Tabs(depth - 1), "}" + rest)
      else "{" + When(fmt, "\n", RenderMembers(members, depth + 1, fmt, When(fmt, Tabs(depth), "}" + rest)))
  }

  function RenderItems(items: Items, depth: nat, fmt: bool, rest: string): string
    decreases items, 1
  {
    if items.NoItem? then rest
    else RenderValue(items.value, depth, fmt, AfterItem(items.next, depth, fmt, rest))
  }

  /** The separator and the elements behind it, if there are any. */
  function AfterItem(items: Items, depth: nat, fmt: bool, rest: string): string
    decreases items, 2
  {
    if items.NoItem? then rest else "," + When(fmt, " ", RenderItems(items, depth, fmt, rest))
  }

  function RenderMembers(members: Members, depth: nat, fmt: bool, rest: string): string
    decreases members, 1
  {
    if members.NoMember? then rest
    else
      var tail := AfterMember(members.next, depth, fmt, rest);
      When(fmt, Tabs(depth), RenderString(members.key,
        ":" + When(fmt, "\t", RenderValue(members.value, depth, fmt, tail))))
  }

  function AfterMember(members: Members, depth: nat, fmt: bool, rest: string): string
    decreases members, 2
  {
    When(members.Member?, ",", When(fmt, "\n", RenderMembers(members, depth, fmt, rest)))
  }

  /** cJSON_Print and cJSON_PrintUnformatted at any depth. */
  function PrintValue(j: Json, depth: nat, fmt: bool): string {
    RenderValue(j, depth, fmt, "")
  }

  function PrintString(s: string): string {
    RenderString(s, "")
  }

  lemma WhenAppend(fmt: bool, s: string, a: string, b: string)
    ensures When(fmt, s, a + b) == When(fmt, s, a) + b
  {
    Associative(s, a, b);
  }

  lemma {:induction false} EscapedAppend(s: string, a: string, b: string)
    ensures Escaped(s, a + b) == Escaped(s, a) + b
  {
    if s != "" {
      EscapedAppend(s[1..], a, b);
      Associative(EscapeChar(s[0]), Escaped(s[1..], a), b);
    }
  }

  lemma StringAppend(s: string, a: string, b: string)
    ensures RenderString(s, a + b) == RenderString(s, a) + b
  {
    assert "\"" + (a + b) == ("\"" + a) + b;
    EscapedAppend(s, "\"" + a, b);
  }

  lemma {:induction false} ValueAppend(j: Json, depth: nat, fmt: bool, a: string, b: string)
    ensures RenderValue(j, depth, fmt, a + b) == RenderValue(j, depth, fmt, a) + b
    decreases j, 0
  {
    match j
    case String(s) => StringAppend(s, a, b);
    case Array(items) => ItemsAppend(items, depth + 1, fmt, "]" + a, b); assert ("]" + a) + b == "]" + (a + b);
    case Object(members) => ObjectAppend(members, depth, fmt, a, b);
    case _ =>
  }

  lemma {:induction false} ObjectAppend(members: Members, depth: nat, fmt: bool, a: string, b: string)
    ensures RenderValue(Object(members), depth, fmt, a + b) == RenderValue(Object(members), depth, fmt, a) + b
    decreases members, 2
  {
    var close, inside := When(fmt, Tabs(depth), "}" + a), "\n" + Tabs(depth - 1);
    assert "}" + (a + b) == ("}" + a) + b;
    if members.NoMember? {
      WhenAppend(fmt, inside, "}" + a, b);
    } else {
      WhenAppend(fmt, Tabs(depth), "}" + a, b);
      MembersAppend(members, depth + 1, fmt, close, b);
      WhenAppend(fmt, "\n", RenderMembers(members, depth + 1, fmt, close), b);
    }
  }

  lemma {:induction false} ItemsAppend(items: Items, depth: nat, fmt: bool, a: string, b: string)
    ensures RenderItems(items, depth, fmt, a + b) == RenderItems(items, depth, fmt, a) + b
    ensures AfterItem(items, depth, fmt, a + b) == AfterItem(items, depth, fmt, a) + b
    decreases items, 1
  {
    if items.Item? {
      ItemsAppend(items.next, depth, fmt, a, b);
      ValueAppend(items.value, depth, fmt, AfterItem(items.next, depth, fmt, a), b);
    }
  }

  lemma {:induction false} MembersAppend(members: Members, depth: nat, fmt: bool, a: string, b: string)
    ensures RenderMembers(members, depth, fmt, a + b) == RenderMembers(members, depth, fmt, a) + b
    decreases members, 1
  {
    if members.Member? {
      var Member(key, j, next) := members;
      MembersAppend(next, depth, fmt, a, b);
      var tail := AfterMember(next, depth, fmt, a);
      assert AfterMember(next, depth, fmt, a + b) == tail + b;
      ValueAppend(j, depth, fmt, tail, b);
      var valued := ":" + When(fmt, "\t", RenderValue(j, depth, fmt, tail));
      assert ":" + When(fmt, "\t", RenderValue(j, depth, fmt, tail + b)) == valued + b;
      StringAppend(key, valued, b);
    }
  }
}
