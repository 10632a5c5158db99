/** The printers of src/cJSON.c: a first pass computes the buffer size, a second one fills the buffer. */
module JsonPrint {
  import opened DecimalText
  import opened Powers
  import opened JsonTree
  import opened JsonRoundTrip
  import H = JsonHeap

  /** The buffer has room for `whole` and its NUL, and holds the first k characters of it. */
  ghost predicate Written(out: array<char>, k: nat, whole: string)
    reads out
  {
    k <= |whole| < out.Length && forall i {:trigger out[i]} :: 0 <= i < k ==> out[i] == whole[i]
  }

  /** `*ptr++ = c`, when c comes next in the text to write and then `rest`. */
  method PutChar(out: array<char>, k: nat, c: char, ghost rest: string, ghost whole: string) returns (k': nat)
    requires Written(out, k, whole) && whole[k..] == [c] + rest
    modifies out
    ensures k' == k + 1 && Written(out, k', whole) && whole[k'..] == rest
  {
    Advance(whole, k, [c], rest);
    assert whole[k] == whole[k..][0];
    out[k] := c;
    k' := k + 1;
  }

  /** strcpy of the C string held by src, and ptr moved behind it. */
  method PutString(out: array<char>, k: nat, src: array<char>, ghost s: string, ghost rest: string, ghost whole: string)
    returns (k': nat)
    requires Written(out, k, whole) && Holds(src, s) && whole[k..] == s + rest && src != out
    modifies out
    ensures k' == k + |s| && Written(out, k', whole) && whole[k'..] == rest
  {
    Advance(whole, k, s, rest);
    var i: nat := 0;
    while src[i] != '\0'
      invariant i <= |s| && Written(out, k + i, whole)
      decreases |s| - i
    {
      assert whole[k + i] == whole[k..][i];
      out[k + i] := src[i];
      i := i + 1;
    }
    k' := k + i;
  }

  method PutTabs(out: array<char>, k: nat, n: int, ghost rest: string, ghost whole: string) returns (k': nat)
    requires Written(out, k, whole) && whole[k..] == Tabs(n) + rest
    modifies out
    ensures k' == k + |Tabs(n)| && Written(out, k', whole) && whole[k'..] == rest
  {
    Advance(whole, k, Tabs(n), rest);
    k' := k;
    TabsAreTabs(n);
    var i := 0;
    while i < n
      invariant i <= n || i == 0
      invariant k' == k + i && Written(out, k', whole)
    {
      assert whole[k + i] == whole[k..][i];
      out[k'] := '\t';
      k', i := k' + 1, i + 1;
    }
  }

  /** What is left to write after s: the rest of the text. */
  lemma Advance(whole: string, k: nat, s: string, rest: string)
    requires k <= |whole| && whole[k..] == s + rest
    ensures s <= whole[k..] && k + |s| <= |whole| && whole[k + |s|..] == rest
  {
    assert whole[k..][|s|..] == whole[k + |s|..];
  }

  // ---------------------------------------------------------------- strings

  function EscapedFrom(t: string, p: nat, rest: string): string
    requires p <= |t|
    decreases |t| - p
  {
    if p == |t| then rest else EscapeChar(t[p]) + EscapedFrom(t, p + 1, rest)
  }

  lemma {:induction false} EscapedFromIsEscaped(t: string, p: nat, rest: string)
    requires p <= |t|
    ensures EscapedFrom(t, p, rest) == Escaped(t[p..], rest)
    decreases |t| - p
  {
    if p < |t| {
      assert t[p..][1..] == t[p + 1..];
      EscapedFromIsEscaped(t, p + 1, rest);
    }
  }

  lemma {:induction false} EscapedNulFree(s: string, rest: string)
    requires NulFree(rest)
    ensures NulFree(Escaped(s, rest))
  {
    if s != "" {
      EscapedNulFree(s[1..], rest);
    }
  }

  lemma PrintStringIs(s: string)
    ensures PrintString(s) == "\"" + EscapedFrom(s, 0, "\"") && NulFree(PrintString(s))
  {
    assert s[0..] == s;
    assert "\"" + "" == "\"";
    EscapedFromIsEscaped(s, 0, "\"");
    EscapedNulFree(s, "\"");
  }

  /** The first pass of print_string_ptr: the length of the escaped text. */
  method EscapedLength(str: string) returns (len: nat)
    requires NulFree(str)
    ensures len + 2 == |PrintString(str)|
  {
    var ptr := 0;
    len := 0;
    PrintStringIs(str);
    while ptr < |str|
      invariant ptr <= |str| && len + |EscapedFrom(str, ptr, "\"")| + 1 == |PrintString(str)|
    {
      var token := str[ptr];
      len := len + 1;
      if token == '\"' || token == '\\' || token == '\U{08}' || token == '\U{0C}' || token == '\n' || token == '\r' || token == '\t' {
        len := len + 1;
      } else if token < ' ' {
        len := len + 5;
      }
      ptr := ptr + 1;
    }
  }

  /** The buffer is filled to its last byte: the length counted first is exact. */
  method PrintStringPtr(str: string) returns (out: array<char>)
    requires NulFree(str)
    ensures out.Length == |PrintString(str)| + 1 && Holds(out, PrintString(str))
  {
    ghost var whole := PrintString(str);
    PrintStringIs(str);
    var len := EscapedLength(str);
    out := new char[len + 3];
    var k := PutChar(out, 0, '\"', EscapedFrom(str, 0, "\""), whole);
    var ptr := 0;
    while ptr < |str|
      invariant ptr <= |str| && Written(out, k, whole)
      invariant whole[k..] == EscapedFrom(str, ptr, "\"")
    {
      Advance(whole, k, EscapeChar(str[ptr]), EscapedFrom(str, ptr + 1, "\""));
      k := PutEscaped(out, k, str[ptr], whole);
      ptr := ptr + 1;
    }
    k := PutChar(out, k, '\"', "", whole);
    out[k] := '\0';
  }

  method PutEscaped(out: array<char>, k: nat, c: char, ghost whole: string) returns (k': nat)
    requires Written(out, k, whole) && EscapeChar(c) <= whole[k..]
    modifies out
    ensures k' == k + |EscapeChar(c)| && Written(out, k', whole)
  {
    assert forall i :: 0 <= i < |EscapeChar(c)| ==> whole[k + i] == EscapeChar(c)[i];
    if c > '\U{1F}' && c != '\"' && c != '\\' {
      out[k] := c;
      k' := k + 1;
    } else {
      out[k] := '\\';
      k' := k + 1;
      match c
      case '\\' => out[k'] := '\\'; k' := k' + 1;
      case '\"' => out[k'] := '\"'; k' := k' + 1;
      case '\U{08}' => out[k'] := 'b'; k' := k' + 1;
      case '\U{0C}' => out[k'] := 'f'; k' := k' + 1;
      case '\n' => out[k'] := 'n'; k' := k' + 1;
      case '\r' => out[k'] := 'r'; k' := k' + 1;
      case '\t' => out[k'] := 't'; k' := k' + 1;
      case _ =>
        out[k'], out[k' + 1], out[k' + 2] := 'u', '0', '0';
        out[k' + 3], out[k' + 4] := HexChar(c as nat / 16), HexChar(c as nat % 16);
        k' := k' + 5;
    }
  }

  // ---------------------------------------------------------------- values

  method StrLen(s: array<char>, ghost text: string) returns (n: nat)
    requires Holds(s, text)
    ensures n == |text|
  {
    n := 0;
    while s[n] != '\0'
      invariant n <= |text|
      decreases |text| - n
    {
      n := n + 1;
    }
  }

  /** A literal text in a buffer of its own size, as cJSON_strdup makes one. */
  method StrDup(s: string) returns (out: array<char>)
    requires NulFree(s)
    ensures Holds(out, s) && out.Length == |s| + 1
  {
    out := new char[|s| + 1](i => if 0 <= i < |s| then s[i] else '\0');
  }

  /** sprintf of "%d" into 21 bytes. */
  method PrintNumber(x: real) returns (out: array<char>)
    requires IsCInt(x)
    ensures Holds(out, Decimal(x.Floor))
  {
    var d := Decimal(x.Floor);
    DecimalLength(x.Floor);
    out := new char[21](i => if 0 <= i < |d| then d[i] else '\0');
  }

  lemma {:induction false} DigitsLength(n: nat, k: nat)
    requires n < Power(10, k) && k > 0
    ensures |Digits(n)| <= k && NulFree(Digits(n))
  {
    if n >= 10 {
      assert Power(10, k) == 10 * Power(10, k - 1);
      DigitsLength(n / 10, k - 1);
    }
  }

  /** No C int needs more than eleven characters. */
  lemma DecimalLength(n: int)
    requires -0x8000_0000 <= n <= 0x7FFF_FFFF
    ensures |Decimal(n)| <= 11 && NulFree(Decimal(n))
  {
    assert Power(10, 10) == 10 * 10 * 10 * 10 * 10 * 10 * 10 * 10 * 10 * 10;
    DigitsLength(if n < 0 then -n else n, 10);
  }

  function If(fmt: bool, n: nat): nat {
    if fmt then n else 0
  }

  /** What the first pass of print_array adds up over the elements. */
  function ItemsSize(items: Items, depth: nat, fmt: bool): nat {
    if items.NoItem? then 0
    else |PrintValue(items.value, depth, fmt)| + 2 + If(fmt, 1) + ItemsSize(items.next, depth, fmt)
  }

  /** What the first pass of print_object adds up over the members. */
  function MembersSize(members: Members, depth: nat, fmt: bool): nat {
    if members.NoMember? then 0
    else
      |PrintValue(members.value, depth, fmt)| + |PrintString(members.key)| + 2 + If(fmt, 2 + depth)
      + MembersSize(members.next, depth, fmt)
  }

  lemma RenderIsPrint(j: Json, depth: nat, fmt: bool, rest: string)
    ensures RenderValue(j, depth, fmt, rest) == PrintValue(j, depth, fmt) + rest
  {
    ValueAppend(j, depth, fmt, "", rest);
    assert "" + rest == rest;
  }

  lemma RenderStringIsPrint(s: string, rest: string)
    ensures RenderString(s, rest) == PrintString(s) + rest
  {
    StringAppend(s, "", rest);
    assert "" + rest == rest;
  }

  lemma {:induction false} ValueNulFree(j: Json, depth: nat, fmt: bool, rest: string)
    requires Printable(j) && NulFree(rest)
    ensures NulFree(RenderValue(j, depth, fmt, rest))
    decreases j, 0
  {
    match j
    case Number(x) => DecimalLength(x.Floor);
    case String(s) => EscapedNulFree(s, "\"" + rest);
    case Array(items) => ItemsNulFree(items, depth + 1, fmt, "]" + rest);
    case Object(members) => ObjectNulFree(members, depth, fmt, rest);
    case _ =>
  }

  lemma {:induction false} ObjectNulFree(members: Members, depth: nat, fmt: bool, rest: string)
    requires PrintableMembers(members) && NulFree(rest)
    ensures NulFree(RenderValue(Object(members), depth, fmt, rest))
    decreases members, 2
  {
    TabsAreTabs(depth);
    TabsAreTabs(depth - 1);
    MembersNulFree(members, depth + 1, fmt, When(fmt, Tabs(depth), "}" + rest));
  }

  lemma {:induction false} ItemsNulFree(items: Items, depth: nat, fmt: bool, rest: string)
    requires PrintableItems(items) && NulFree(rest)
    ensures NulFree(RenderItems(items, depth, fmt, rest)) && NulFree(AfterItem(items, depth, fmt, rest))
    decreases items, 1
  {
    if items.Item? {
      ItemsNulFree(items.next, depth, fmt, rest);
      ValueNulFree(items.value, depth, fmt, AfterItem(items.next, depth, fmt, rest));
    }
  }

  lemma {:induction false} MembersNulFree(members: Members, depth: nat, fmt: bool, rest: string)
    requires PrintableMembers(members) && NulFree(rest)
    ensures NulFree(RenderMembers(members, depth, fmt, rest))
    decreases members, 1
  {
    if members.Member? {
      var tail := AfterMember(members.next, depth, fmt, rest);
      MembersNulFree(members.next, depth, fmt, rest);
      ValueNulFree(members.value, depth, fmt, tail);
      TabsAreTabs(depth);
      EscapedNulFree(members.key, "\"" + (":" + When(fmt, "\t", RenderValue(members.value, depth, fmt, tail))));
    }
  }

  /** The second pass writes no more than the first one counted. */
  lemma {:induction false} ItemsFit(items: Items, depth: nat, fmt: bool, rest: string)
    ensures |RenderItems(items, depth, fmt, rest)| <= ItemsSize(items, depth, fmt) + |rest|
    ensures |AfterItem(items, depth, fmt, rest)| <= ItemsSize(items, depth, fmt) + |rest| + 1 + If(fmt, 1)
  {
    if items.Item? {
      ItemsFit(items.next, depth, fmt, rest);
      RenderIsPrint(items.value, depth, fmt, AfterItem(items.next, depth, fmt, rest));
    }
  }

  lemma {:induction false} MembersFit(members: Members, depth: nat, fmt: bool, rest: string)
    ensures |RenderMembers(members, depth, fmt, rest)| <= MembersSize(members, depth, fmt) + |rest|
  {
    if members.Member? {
      var tail := AfterMember(members.next, depth, fmt, rest);
      MembersFit(members.next, depth, fmt, rest);
      TabsAreTabs(depth);
      RenderIsPrint(members.value, depth, fmt, tail);
      RenderStringIsPrint(members.key, ":" + When(fmt, "\t", RenderValue(members.value, depth, fmt, tail)));
    }
  }

  /** The chain after n steps along `next`. */
  function ItemsFrom(items: Items, n: nat): Items {
    if n == 0 || items.NoItem? then items else ItemsFrom(items.next, n - 1)
  }

  function MembersFrom(members: Members, n: nat): Members {
    if n == 0 || members.NoMember? then members else MembersFrom(members.next, n - 1)
  }

  lemma {:induction false} ItemsFromNext(items: Items, n: nat)
    requires ItemsFrom(items, n).Item?
    ensures ItemsFrom(items, n + 1) == ItemsFrom(items, n).next
  {
    if n > 0 {
      ItemsFromNext(items.next, n - 1);
    }
  }

  lemma {:induction false} MembersFromNext(members: Members, n: nat)
    requires MembersFrom(members, n).Member?
    ensures MembersFrom(members, n + 1) == MembersFrom(members, n).next
  {
    if n > 0 {
      MembersFromNext(members.next, n - 1);
    }
  }

  /** The buffers hold the printed elements, in chain order. */
  ghost predicate HoldItems(entries: seq<array<char>>, items: Items, depth: nat, fmt: bool)
    reads entries
  {
    forall i :: 0 <= i < |entries| ==>
      ItemsFrom(items, i).Item? && Holds(entries[i], PrintValue(ItemsFrom(items, i).value, depth, fmt))
  }

  ghost predicate HoldMembers(names: seq<array<char>>, entries: seq<array<char>>, members: Members, depth: nat, fmt: bool)
    reads names, entries
  {
    && |names| == |entries|
    && forall i :: 0 <= i < |entries| ==>
      && MembersFrom(members, i).Member?
      && Holds(names[i], PrintString(MembersFrom(members, i).key))
      && Holds(entries[i], PrintValue(MembersFrom(members, i).value, depth, fmt))
  }

  lemma HoldItemsAppend(entries: seq<array<char>>, items: Items, depth: nat, fmt: bool, ret: array<char>)
    requires HoldItems(entries, items, depth, fmt) && ItemsFrom(items, |entries|).Item?
    requires Holds(ret, PrintValue(ItemsFrom(items, |entries|).value, depth, fmt))
    ensures HoldItems(entries + [ret], items, depth, fmt)
  {
  }

  lemma HoldMembersAppend(names: seq<array<char>>, entries: seq<array<char>>, members: Members, depth: nat, fmt: bool,
                          str: array<char>, ret: array<char>)
    requires HoldMembers(names, entries, members, depth, fmt) && MembersFrom(members, |entries|).Member?
    requires Holds(str, PrintString(MembersFrom(members, |entries|).key))
    requires Holds(ret, PrintValue(MembersFrom(members, |entries|).value, depth, fmt))
    ensures HoldMembers(names + [str], entries + [ret], members, depth, fmt)
  {
  }

  /** print_value on a linked item, which stands for j. */
  method PrintItem(item: H.Item, ghost j: Json, ghost below: set<H.Item>, depth: nat, fmt: bool) returns (out: array<char>)
    requires H.Denotes(item, j, below) && Printable(j)
    ensures Holds(out, PrintValue(j, depth, fmt))
    decreases j, 0
  {
    match item.kind
    case KNull => out := StrDup("null");
    case KFalse => out := StrDup("false");
    case KTrue => out := StrDup("true");
    case KNumber => out := PrintNumber(item.number); assert Decimal(j.value.Floor) + "" == Decimal(j.value.Floor);
    case KString => out := PrintStringPtr(item.text);
    case KArray => out := PrintArray(item, j.items, below, depth, fmt);
    case KObject => out := PrintObject(item, j.members, below, depth, fmt);
  }

  method PrintArray(item: H.Item, ghost items: Items, ghost below: set<H.Item>, depth: nat, fmt: bool) returns (out: array<char>)
    requires H.Denotes(item, Array(items), below) && PrintableItems(items)
    ensures Holds(out, PrintValue(Array(items), depth, fmt))
    decreases items, 2
  {
    H.NextItem(item, item.child, 0, items, below);
    if item.child == null {
      out := StrDup("[]");
      return;
    }
    var entries, len := PrintItemEntries(item, items, below, depth + 1, fmt);
    out := ComposeArray(entries, len, items, depth, fmt);
  }

  /** The first pass of print_array: the entries and the size of the buffer they go to. */
  method PrintItemEntries(item: H.Item, ghost items: Items, ghost below: set<H.Item>, depth: nat, fmt: bool)
    returns (entries: seq<array<char>>, len: nat)
    requires H.Denotes(item, Array(items), below) && PrintableItems(items)
    ensures HoldItems(entries, items, depth, fmt) && ItemsFrom(items, |entries|).NoItem?
    ensures len == 5 + ItemsSize(items, depth, fmt)
    decreases items, 1
  {
    entries, len := [], 5;
    var child := item.child;
    ghost var rest := items;
    H.NextItem(item, child, 0, rest, below);
    while child != null
      invariant PrintableItems(rest) && (rest == items || rest < items)
      invariant H.ItemsAhead(item, child, |entries|, rest, below) && (child == null <==> rest.NoItem?)
      invariant HoldItems(entries, items, depth, fmt) && rest == ItemsFrom(items, |entries|)
      invariant len + ItemsSize(rest, depth, fmt) == 5 + ItemsSize(items, depth, fmt)
      decreases rest
    {
      H.NextItem(item, child, |entries|, rest, below);
      var size;
      entries, size := AppendEntry(entries, items, child, rest, item.subs[|entries|], depth, fmt);
      len := len + size;
      child, rest := child.next, rest.next;
      H.NextItem(item, child, |entries|, rest, below);
    }
  }

  /** One round: the element is printed and its length counted. */
  method AppendEntry(entries0: seq<array<char>>, ghost items: Items, child: H.Item, ghost rest: Items, ghost sub: set<H.Item>,
                     depth: nat, fmt: bool)
    returns (entries: seq<array<char>>, size: nat)
    requires HoldItems(entries0, items, depth, fmt) && rest == ItemsFrom(items, |entries0|)
    requires rest.Item? && PrintableItems(rest) && H.Denotes(child, rest.value, sub)
    ensures HoldItems(entries, items, depth, fmt) && |entries| == |entries0| + 1 && rest.next == ItemsFrom(items, |entries|)
    ensures size + ItemsSize(rest.next, depth, fmt) == ItemsSize(rest, depth, fmt)
    decreases rest, 0
  {
    var ret := PrintItem(child, rest.value, sub, depth, fmt);
    var n := StrLen(ret, PrintValue(rest.value, depth, fmt));
    ItemsFromNext(items, |entries0|);
    HoldItemsAppend(entries0, items, depth, fmt, ret);
    entries, size := entries0 + [ret], n + 2 + if fmt then 1 else 0;
  }

  /** The second pass: no byte is written outside the buffer of the size counted. */
  method ComposeArray(entries: seq<array<char>>, len: nat, ghost items: Items, ghost depth: nat, fmt: bool)
    returns (out: array<char>)
    requires items.Item? && PrintableItems(items)
    requires HoldItems(entries, items, depth + 1, fmt) && ItemsFrom(items, |entries|).NoItem?
    requires len == 5 + ItemsSize(items, depth + 1, fmt)
    ensures Holds(out, PrintValue(Array(items), depth, fmt))
  {
    ArrayText(items, depth, fmt);
    out := new char[len];
    FillArray(out, entries, items, depth + 1, fmt, PrintValue(Array(items), depth, fmt));
  }

  lemma ArrayText(items: Items, depth: nat, fmt: bool)
    requires items.Item? && PrintableItems(items)
    ensures
      var whole := PrintValue(Array(items), depth, fmt);
      && whole == "[" + RenderItems(items, depth + 1, fmt, "]" + "") && NulFree(whole)
      && |whole| + 1 <= 5 + ItemsSize(items, depth + 1, fmt)
  {
    ItemsFit(items, depth + 1, fmt, "]" + "");
    ValueNulFree(Array(items), depth, fmt, "");
  }

  method FillArray(out: array<char>, entries: seq<array<char>>, ghost items: Items, ghost depth: nat, fmt: bool, ghost whole: string)
    requires HoldItems(entries, items, depth, fmt) && ItemsFrom(items, |entries|).NoItem? && out !in entries
    requires |whole| < out.Length && NulFree(whole) && whole == "[" + RenderItems(items, depth, fmt, "]" + "")
    modifies out
    ensures Holds(out, whole)
  {
    var ptr := OpenWith(out, '[', RenderItems(items, depth, fmt, "]" + ""), whole);
    assert HoldItems(entries, items, depth, fmt);
    ptr := ComposeItems(out, ptr, entries, items, depth, fmt, "]" + "", whole);
    ptr := PutChar(out, ptr, ']', "", whole);
    out[ptr] := '\0';
  }

  /** The elements from the i-th on are still to be written. */
  ghost predicate ItemsLeft(out: array<char>, ptr: nat, entries: seq<array<char>>, i: nat, items: Items, depth: nat, fmt: bool,
                            close: string, whole: string)
    reads out, entries
  {
    && HoldItems(entries, items, depth, fmt) && ItemsFrom(items, |entries|).NoItem? && out !in entries && i <= |entries|
    && Written(out, ptr, whole) && whole[ptr..] == RenderItems(ItemsFrom(items, i), depth, fmt, close)
  }

  method ComposeItems(out: array<char>, ptr0: nat, entries: seq<array<char>>, ghost items: Items, ghost depth: nat, fmt: bool,
                      ghost close: string, ghost whole: string)
    returns (ptr: nat)
    requires ItemsLeft(out, ptr0, entries, 0, items, depth, fmt, close, whole)
    modifies out
    ensures Written(out, ptr, whole) && whole[ptr..] == close
  {
    ptr := ptr0;
    for i := 0 to |entries|
      invariant ItemsLeft(out, ptr, entries, i, items, depth, fmt, close, whole)
    {
      ptr := ComposeItemAt(out, ptr, entries, i, items, depth, fmt, close, whole);
    }
  }

  method ComposeItemAt(out: array<char>, ptr: nat, entries: seq<array<char>>, i: nat,
                       ghost items: Items, ghost depth: nat, fmt: bool, ghost close: string, ghost whole: string)
    returns (ptr': nat)
    requires i < |entries| && ItemsLeft(out, ptr, entries, i, items, depth, fmt, close, whole)
    modifies out
    ensures ItemsLeft(out, ptr', entries, i + 1, items, depth, fmt, close, whole)
  {
    ItemsFromNext(items, i);
    ghost var rest := ItemsFrom(items, i);
    assert rest.next.Item? == (i != |entries| - 1);
    ptr' := ComposeItem(out, ptr, entries[i], i != |entries| - 1, rest, depth, fmt, close, whole);
  }

  /** One round of the composing loop of print_array. */
  method ComposeItem(out: array<char>, ptr: nat, entry: array<char>, more: bool,
                     ghost items: Items, ghost depth: nat, fmt: bool, ghost close: string, ghost whole: string)
    returns (ptr': nat)
    requires items.Item? && more == items.next.Item? && entry != out
    requires Holds(entry, PrintValue(items.value, depth, fmt))
    requires Written(out, ptr, whole) && whole[ptr..] == RenderItems(items, depth, fmt, close)
    modifies out
    ensures Written(out, ptr', whole) && whole[ptr'..] == RenderItems(items.next, depth, fmt, close)
  {
    ghost var next := RenderItems(items.next, depth, fmt, close);
    ghost var tail := AfterItem(items.next, depth, fmt, close);
    RenderIsPrint(items.value, depth, fmt, tail);
    ptr' := PutString(out, ptr, entry, PrintValue(items.value, depth, fmt), tail, whole);
    if more {
      ptr' := PutChar(out, ptr', ',', When(fmt, " ", next), whole);
      if fmt {
        ptr' := PutChar(out, ptr', ' ', next, whole);
      }
    }
  }

  method PrintObject(item: H.Item, ghost members: Members, ghost below: set<H.Item>, depth: nat, fmt: bool)
    returns (out: array<char>)
    requires H.Denotes(item, Object(members), below) && PrintableMembers(members)
    ensures Holds(out, PrintValue(Object(members), depth, fmt))
    decreases members, 2
  {
    H.NextMember(item, item.child, 0, members, below);
    if item.child == null {
      out := PrintEmptyObject(depth, fmt);
      return;
    }
    var names, entries, len := PrintMemberEntries(item, members, below, depth + 1, fmt);
    out := ComposeObject(names, entries, len, members, depth, fmt);
  }

  method PrintEmptyObject(depth: nat, fmt: bool) returns (out: array<char>)
    ensures Holds(out, PrintValue(Object(NoMember), depth, fmt))
    ensures out.Length == if fmt then depth + 4 else 3
  {
    ghost var whole := PrintValue(Object(NoMember), depth, fmt);
    ghost var closing := When(fmt, "\n" + Tabs(depth - 1), "}" + "");
    TabsAreTabs(depth - 1);
    ValueNulFree(Object(NoMember), depth, fmt, "");
    out := new char[if fmt then depth + 4 else 3];
    var ptr := PutChar(out, 0, '{', closing, whole);
    if fmt {
      assert closing == "\n" + (Tabs(depth - 1) + ("}" + ""));
      ptr := PutChar(out, ptr, '\n', Tabs(depth - 1) + ("}" + ""), whole);
      ptr := PutTabs(out, ptr, depth - 1, "}" + "", whole);
    }
    ptr := PutChar(out, ptr, '}', "", whole);
    out[ptr] := '\0';
  }

  /** The first pass of print_object; depth is already that of the members. */
  method PrintMemberEntries(item: H.Item, ghost members: Members, ghost below: set<H.Item>, depth: nat, fmt: bool)
    returns (names: seq<array<char>>, entries: seq<array<char>>, len: nat)
    requires H.Denotes(item, Object(members), below) && PrintableMembers(members)
    ensures HoldMembers(names, entries, members, depth, fmt) && MembersFrom(members, |entries|).NoMember?
    ensures len == 7 + If(fmt, depth) + MembersSize(members, depth, fmt)
    decreases members, 1
  {
    names, entries, len := [], [], 7;
    var child := item.child;
    ghost var rest := members;
    if fmt { len := len + depth; }
    H.NextMember(item, child, 0, rest, below);
    while child != null
      invariant PrintableMembers(rest) && (rest == members || rest < members)
      invariant H.MembersAhead(item, child, |entries|, rest, below) && (child == null <==> rest.NoMember?)
      invariant HoldMembers(names, entries, members, depth, fmt) && rest == MembersFrom(members, |entries|)
      invariant len + MembersSize(rest, depth, fmt) == 7 + If(fmt, depth) + MembersSize(members, depth, fmt)
      decreases rest
    {
      H.NextMember(item, child, |entries|, rest, below);
      var size;
      names, entries, size := AppendMember(names, entries, members, child, rest, item.subs[|entries|], depth, fmt);
      len := len + size;
      child, rest := child.next, rest.next;
      H.NextMember(item, child, |entries|, rest, below);
    }
  }

  /** One round: both texts are printed and their lengths counted. */
  method AppendMember(names0: seq<array<char>>, entries0: seq<array<char>>, ghost members: Members,
                      child: H.Item, ghost rest: Members, ghost sub: set<H.Item>, depth: nat, fmt: bool)
    returns (names: seq<array<char>>, entries: seq<array<char>>, size: nat)
    requires HoldMembers(names0, entries0, members, depth, fmt) && rest == MembersFrom(members, |entries0|)
    requires rest.Member? && PrintableMembers(rest) && H.Denotes(child, rest.value, sub) && child.key == rest.key
    ensures HoldMembers(names, entries, members, depth, fmt) && |entries| == |entries0| + 1
    ensures rest.next == MembersFrom(members, |entries|)
    ensures size + MembersSize(rest.next, depth, fmt) == MembersSize(rest, depth, fmt)
    decreases rest, 0
  {
    var str, ret;
    str, ret, size := PrintMember(child, rest.value, sub, depth, fmt);
    MembersFromNext(members, |entries0|);
    HoldMembersAppend(names0, entries0, members, depth, fmt, str, ret);
    names, entries := names0 + [str], entries0 + [ret];
  }

  method PrintMember(child: H.Item, ghost j: Json, ghost sub: set<H.Item>, depth: nat, fmt: bool)
    returns (str: array<char>, ret: array<char>, size: nat)
    requires H.Denotes(child, j, sub) && NulFree(child.key) && Printable(j)
    ensures Holds(str, PrintString(child.key)) && Holds(ret, PrintValue(j, depth, fmt))
    ensures size == |PrintValue(j, depth, fmt)| + |PrintString(child.key)| + 2 + If(fmt, 2 + depth)
    decreases j, 1
  {
    str := PrintStringPtr(child.key);
    ret := PrintItem(child, j, sub, depth, fmt);
    var n := StrLen(ret, PrintValue(j, depth, fmt));
    var m := StrLen(str, PrintString(child.key));
    size := n + m + 2 + if fmt then 2 + depth else 0;
  }

  /** The second pass: no byte is written outside the buffer of the size counted. */
  method ComposeObject(names: seq<array<char>>, entries: seq<array<char>>, len: nat,
                       ghost members: Members, depth: nat, fmt: bool)
    returns (out: array<char>)
    requires members.Member? && PrintableMembers(members)
    requires HoldMembers(names, entries, members, depth + 1, fmt) && MembersFrom(members, |entries|).NoMember?
    requires len == 7 + If(fmt, depth + 1) + MembersSize(members, depth + 1, fmt)
    ensures Holds(out, PrintValue(Object(members), depth, fmt))
  {
    ghost var close := When(fmt, Tabs(depth), "}" + "");
    ObjectText(members, depth, fmt, close);
    out := new char[len];
    FillObject(out, names, entries, members, depth, fmt, close, PrintValue(Object(members), depth, fmt));
  }

  method FillObject(out: array<char>, names: seq<array<char>>, entries: seq<array<char>>, ghost members: Members,
                    depth: nat, fmt: bool, ghost close: string, ghost whole: string)
    requires HoldMembers(names, entries, members, depth + 1, fmt) && MembersFrom(members, |entries|).NoMember?
    requires out !in names && out !in entries && |whole| < out.Length && NulFree(whole)
    requires close == When(fmt, Tabs(depth), "}" + "")
    requires whole == "{" + When(fmt, "\n", RenderMembers(members, depth + 1, fmt, close))
    modifies out
    ensures Holds(out, whole)
  {
    ghost var body := RenderMembers(members, depth + 1, fmt, close);
    var ptr := OpenObject(out, fmt, body, whole);
    FillMembers(out, ptr, names, entries, members, depth, fmt, close, whole);
  }

  method FillMembers(out: array<char>, ptr0: nat, names: seq<array<char>>, entries: seq<array<char>>, ghost members: Members,
                     depth: nat, fmt: bool, ghost close: string, ghost whole: string)
    requires HoldMembers(names, entries, members, depth + 1, fmt) && MembersFrom(members, |entries|).NoMember?
    requires out !in names && out !in entries && NulFree(whole) && close == When(fmt, Tabs(depth), "}" + "")
    requires Written(out, ptr0, whole) && whole[ptr0..] == RenderMembers(members, depth + 1, fmt, close)
    modifies out
    ensures Holds(out, whole)
  {
    var ptr := ComposeMembers(out, ptr0, names, entries, members, depth + 1, fmt, close, whole);
    CloseObject(out, ptr, depth, fmt, whole);
  }

  /** The members from the i-th on are still to be written. */
  ghost predicate MembersLeft(out: array<char>, ptr: nat, names: seq<array<char>>, entries: seq<array<char>>, i: nat,
                              members: Members, depth: nat, fmt: bool, close: string, whole: string)
    reads out, names, entries
  {
    && HoldMembers(names, entries, members, depth, fmt) && MembersFrom(members, |entries|).NoMember?
    && out !in names && out !in entries && i <= |entries|
    && Written(out, ptr, whole) && whole[ptr..] == RenderMembers(MembersFrom(members, i), depth, fmt, close)
  }

  method ComposeMembers(out: array<char>, ptr0: nat, names: seq<array<char>>, entries: seq<array<char>>,
                        ghost members: Members, depth: nat, fmt: bool, ghost close: string, ghost whole: string)
    returns (ptr: nat)
    requires MembersLeft(out, ptr0, names, entries, 0, members, depth, fmt, close, whole)
    modifies out
    ensures Written(out, ptr, whole) && whole[ptr..] == close
  {
    ptr := ptr0;
    for i := 0 to |entries|
      invariant MembersLeft(out, ptr, names, entries, i, members, depth, fmt, close, whole)
    {
      ptr := ComposeMemberAt(out, ptr, names, entries, i, members, depth, fmt, close, whole);
    }
  }

  method ComposeMemberAt(out: array<char>, ptr: nat, names: seq<array<char>>, entries: seq<array<char>>, i: nat,
                         ghost members: Members, depth: nat, fmt: bool, ghost close: string, ghost whole: string)
    returns (ptr': nat)
    requires i < |entries| && MembersLeft(out, ptr, names, entries, i, members, depth, fmt, close, whole)
    modifies out
    ensures MembersLeft(out, ptr', names, entries, i + 1, members, depth, fmt, close, whole)
  {
    MembersFromNext(members, i);
    ghost var rest := MembersFrom(members, i);
    assert rest.next.Member? == (i != |entries| - 1);
    ptr' := ComposeMember(out, ptr, names[i], entries[i], i != |entries| - 1, rest, depth, fmt, close, whole);
  }

  method OpenWith(out: array<char>, c: char, ghost body: string, ghost whole: string) returns (ptr: nat)
    requires |whole| < out.Length && whole == [c] + body
    modifies out
    ensures Written(out, ptr, whole) && whole[ptr..] == body
  {
    assert whole[0..] == whole;
    ptr := PutChar(out, 0, c, body, whole);
  }

  method OpenObject(out: array<char>, fmt: bool, ghost body: string, ghost whole: string) returns (ptr: nat)
    requires |whole| < out.Length && whole == "{" + When(fmt, "\n", body)
    modifies out
    ensures Written(out, ptr, whole) && whole[ptr..] == body
  {
    ptr := OpenWith(out, '{', When(fmt, "\n", body), whole);
    if fmt {
      ptr := PutChar(out, ptr, '\n', body, whole);
    }
  }

  method CloseObject(out: array<char>, ptr0: nat, depth: nat, fmt: bool, ghost whole: string)
    requires Written(out, ptr0, whole) && NulFree(whole) && whole[ptr0..] == When(fmt, Tabs(depth), "}" + "")
    modifies out
    ensures Holds(out, whole)
  {
    var ptr := ptr0;
    if fmt {
      ptr := PutTabs(out, ptr, depth, "}" + "", whole);
    }
    ptr := PutChar(out, ptr, '}', "", whole);
    out[ptr] := '\0';
  }

  lemma ObjectText(members: Members, depth: nat, fmt: bool, close: string)
    requires members.Member? && PrintableMembers(members) && close == When(fmt, Tabs(depth), "}" + "")
    ensures
      var whole := PrintValue(Object(members), depth, fmt);
      && whole == "{" + When(fmt, "\n", RenderMembers(members, depth + 1, fmt, close)) && NulFree(whole)
      && |whole| + 1 <= 7 + If(fmt, depth + 1) + MembersSize(members, depth + 1, fmt)
  {
    ValueNulFree(Object(members), depth, fmt, "");
    TabsAreTabs(depth);
    MembersFit(members, depth + 1, fmt, close);
  }

  /** One round of the composing loop of print_object. */
  method ComposeMember(out: array<char>, ptr: nat, name: array<char>, entry: array<char>, more: bool,
                       ghost members: Members, depth: nat, fmt: bool, ghost close: string, ghost whole: string)
    returns (ptr': nat)
    requires members.Member? && more == members.next.Member? && name != out && entry != out
    requires Holds(name, PrintString(members.key)) && Holds(entry, PrintValue(members.value, depth, fmt))
    requires Written(out, ptr, whole) && whole[ptr..] == RenderMembers(members, depth, fmt, close)
    modifies out
    ensures Written(out, ptr', whole) && whole[ptr'..] == RenderMembers(members.next, depth, fmt, close)
  {
    ghost var next := RenderMembers(members.next, depth, fmt, close);
    ghost var tail := AfterMember(members.next, depth, fmt, close);
    RenderIsPrint(members.value, depth, fmt, tail);
    ptr' := ComposeKey(out, ptr, name, members.key, depth, fmt, RenderValue(members.value, depth, fmt, tail), whole);
    ptr' := PutString(out, ptr', entry, PrintValue(members.value, depth, fmt), tail, whole);
    if more {
      ptr' := PutChar(out, ptr', ',', When(fmt, "\n", next), whole);
    }
    if fmt {
      ptr' := PutChar(out, ptr', '\n', next, whole);
    }
  }

  method ComposeKey(out: array<char>, ptr: nat, name: array<char>, ghost key: string, depth: nat, fmt: bool,
                    ghost valued: string, ghost whole: string)
    returns (ptr': nat)
    requires name != out && Holds(name, PrintString(key)) && Written(out, ptr, whole)
    requires whole[ptr..] == When(fmt, Tabs(depth), RenderString(key, ":" + When(fmt, "\t", valued)))
    modifies out
    ensures Written(out, ptr', whole) && whole[ptr'..] == valued
  {
    ghost var colon := ":" + When(fmt, "\t", valued);
    ptr' := ptr;
    if fmt {
      ptr' := PutTabs(out, ptr', depth, RenderString(key, colon), whole);
    }
    RenderStringIsPrint(key, colon);
    ptr' := PutString(out, ptr', name, PrintString(key), colon, whole);
    ptr' := PutChar(out, ptr', ':', When(fmt, "\t", valued), whole);
    if fmt {
      ptr' := PutChar(out, ptr', '\t', valued, whole);
    }
  }
}
