/** Parsing either printed form gives the tree back and consumes exactly the printed text. */
module JsonRoundTrip {
  import opened DecimalText
  import opened JsonTree
  import opened JsonParse
  import Utf8

  /** Text that does not continue a number. */
  predicate EndsNumber(v: string) {
    v == "" || (!IsDigit(v[0]) && v[0] !in ".eE+-")
  }

  // ---------------------------------------------------------------- strings

  lemma EscapeCharDecodes(c: char, rest: string)
    requires c != '\0'
    ensures EscapeChar(c) != "" && EscapeChar(c)[0] != '\"'
    ensures EscapeChar(c)[0] != '\\' ==> EscapeChar(c) == [c]
    ensures EscapeChar(c)[0] == '\\' ==> DecodeEscape(EscapeChar(c)[1..] + rest) == Ok([c], rest)
  {
    var e := EscapeChar(c);
    if e[0] == '\\' {
      if e[1] == 'u' {
        HexEscapeDecodes(c as nat, rest);
        assert e[1..] == "u00" + [HexChar(c as nat / 16), HexChar(c as nat % 16)];
      } else {
        assert (e[1..] + rest)[1..] == rest;
      }
    }
  }

  lemma HexEscapeDecodes(n: nat, rest: string)
    requires 0 < n < 32
    ensures DecodeEscape("u00" + [HexChar(n / 16), HexChar(n % 16)] + rest) == Ok([n as char], rest)
  {
    var h := "00" + [HexChar(n / 16), HexChar(n % 16)];
    assert "u00" + [HexChar(n / 16), HexChar(n % 16)] + rest == "u" + (h + rest);
    assert HexValue(h[2]) == n / 16 && HexValue(h[3]) == n % 16;
    EscapedScalarDecodes(h, rest);
    assert Utf8Chars(n) == [n as char];
  }

  /** Every C string survives print_string_ptr and then parse_string. */
  lemma StringRoundTrip(s: string, rest: string)
    requires NulFree(s)
    ensures ParseString(RenderString(s, rest)) == Ok(s, rest)
  {
    EscapedDecodes(s, rest);
  }

  lemma {:induction false} EscapedDecodes(s: string, rest: string)
    requires NulFree(s)
    ensures DecodeString(Escaped(s, "\"" + rest)) == Ok(s, rest)
  {
    if s != "" {
      EscapedDecodes(s[1..], rest);
      EscapedCharDecodes(s[0], Escaped(s[1..], "\"" + rest));
      assert [s[0]] + s[1..] == s;
    }
  }

  lemma EscapedCharDecodes(c: char, tail: string)
    requires c != '\0' && DecodeString(tail).Ok?
    ensures DecodeString(EscapeChar(c) + tail) == Ok([c] + DecodeString(tail).value, DecodeString(tail).rest)
  {
    var t := EscapeChar(c) + tail;
    EscapeCharDecodes(c, tail);
    assert t[1..] == EscapeChar(c)[1..] + tail;
    DecodeStep(t);
  }

  /** One round of the second loop of parse_string. */
  lemma DecodeStep(v: string)
    requires v != "" && v[0] != '\"'
    ensures v[0] != '\\' ==> var r := DecodeString(v[1..]);
      DecodeString(v) == if r.Ok? then Ok([v[0]] + r.value, r.rest) else r
    ensures v[0] == '\\' && DecodeEscape(v[1..]).Ok? ==>
      var e := DecodeEscape(v[1..]);
      var r := DecodeString(e.rest);
      DecodeString(v) == if r.Ok? then Ok(e.value + r.value, r.rest) else r
    ensures v[0] == '\\' && DecodeString(v).Ok? ==> DecodeEscape(v[1..]).Ok?
  {
  }

  /** \uXXXX, in either hexadecimal case, is the UTF-8 form of the scalar it names. */
  lemma EscapedScalarDecodes(h: string, rest: string)
    requires |h| == 4 && StartsWithHex4(h)
    requires Hex4(h) != 0 && Utf8.IsScalar(Hex4(h))
    ensures DecodeEscape("u" + (h + rest)) == Ok(Utf8Chars(Hex4(h)), rest)
  {
    var v := h + rest;
    assert ("u" + v)[1..] == v;
    assert v[..4] == h && v[4..] == rest;
  }

  /** A surrogate pair is the UTF-8 form of the scalar above U+FFFF it stands for. */
  lemma EscapedPairDecodes(h: string, l: string, u: Utf8.codepoint, rest: string)
    requires |h| == 4 && StartsWithHex4(h) && |l| == 4 && StartsWithHex4(l)
    requires u >= 0x1_0000
    requires Hex4(h) == 0xD800 + (u - 0x1_0000) / 0x400 && Hex4(l) == 0xDC00 + (u - 0x1_0000) % 0x400
    ensures DecodeEscape("u" + (h + ("\\u" + (l + rest)))) == Ok(Utf8Chars(u), rest)
  {
    var second := l + rest;
    var v := h + ("\\u" + second);
    assert ("u" + v)[1..] == v;
    assert v[..4] == h && v[4] == '\\' && v[5] == 'u' && v[6..] == second;
    assert second[..4] == l && second[4..] == rest;
    assert v[10..] == second[4..];
    SurrogatesOf(u, Hex4(h), Hex4(l));
  }

  lemma SurrogatesOf(u: Utf8.codepoint, high: nat, low: nat)
    requires u >= 0x1_0000
    requires high == 0xD800 + (u - 0x1_0000) / 0x400 && low == 0xDC00 + (u - 0x1_0000) % 0x400
    ensures IsHighSurrogate(high) && IsLowSurrogate(low) && CombineSurrogates(high, low) == u
  {
  }

  // ---------------------------------------------------------------- numbers

  lemma {:induction false} DigitsEndAt(t: string, i: nat, e: nat)
    requires i <= e <= |t| && (forall k :: i <= k < e ==> IsDigit(t[k])) && !IsDigit(At(t, e))
    ensures DigitsEnd(t, i) == e
    decreases e - i
  {
    if i < e {
      DigitsEndAt(t, i + 1, e);
    }
  }

  /** Horner's scheme read from the right: the last digit is added last. */
  lemma {:induction false} DigitsValueSplit(t: string, i: nat, e: nat, n: nat)
    requires i < e <= |t|
    ensures DigitsValue(t, i, e, n) == 10 * DigitsValue(t, i, e - 1, n) + DigitValue(t[e - 1])
    decreases e - i
  {
    if i + 1 < e {
      DigitsValueSplit(t, i + 1, e, 10 * n + DigitValue(t[i]));
    }
  }

  lemma {:induction false} DigitsValueOf(t: string, i: nat, e: nat, n: nat)
    requires i <= e <= |t| && t[i..e] == Digits(n)
    ensures DigitsValue(t, i, e, 0) == n
    decreases n
  {
    DigitsAreDigits(n);
    DigitsValueSplit(t, i, e, 0);
    assert t[e - 1] == t[i..e][e - 1 - i] == DigitChar(n % 10);
    if n >= 10 {
      assert t[i..e - 1] == t[i..e][..e - 1 - i] == Digits(n / 10);
      DigitsValueOf(t, i, e - 1, n / 10);
    }
  }

  lemma DecimalHead(n: int)
    ensures Head(Decimal(n)) == '-' || IsDigit(Head(Decimal(n)))
  {
    DigitsAreDigits(if n < 0 then -n else n);
  }

  /** A printed C int, then text that does not go on as a number: where the number ends. */
  lemma DecimalEnd(n: int, t: string)
    requires Decimal(n) <= t && (|t| == |Decimal(n)| || EndsNumber(t[|Decimal(n)|..]))
    ensures NumberEnd(t) == |Decimal(n)|
    ensures MantissaEnd(t, SignEnd(t)) == |Decimal(n)|
  {
    var d, s := Decimal(n), if n < 0 then 1 else 0;
    DigitsAreDigits(if n < 0 then -n else n);
    assert forall k :: 0 <= k < |d| ==> t[k] == d[k];
    assert |t| > |d| ==> At(t, |d|) == t[|d|..][0];
    assert SignEnd(t) == s;
    if n != 0 {
      DigitsEndAt(t, s, |d|);
    }
  }

  lemma DecimalValue(n: int)
    ensures NumberValue(Decimal(n)) == n as real
  {
    var t, m := Decimal(n), if n < 0 then -n else n;
    var s := |t| - |Digits(m)|;
    DecimalEnd(n, t);
    DigitsAreDigits(m);
    DigitsValueOf(t, s, |t|, m);
  }

  lemma NumberRoundTrip(n: int, rest: string)
    requires EndsNumber(rest)
    ensures ParseNumber(Decimal(n) + rest) == (n as real, rest)
  {
    DecimalEnd(n, Decimal(n) + rest);
    DecimalValue(n);
    assert (Decimal(n) + rest)[..|Decimal(n)|] == Decimal(n);
  }

  // ---------------------------------------------------------------- trees

  lemma {:induction false} WhenSkip(cond: bool, blank: string, v: string)
    requires forall i :: 0 <= i < |blank| ==> blank[i] <= ' '
    ensures Skip(When(cond, blank, v)) == Skip(v)
    decreases blank
  {
    if cond && blank != "" {
      WhenSkip(cond, blank[1..], v);
      assert (blank + v)[0] == blank[0];
      assert (blank + v)[1..] == blank[1..] + v;
    } else {
      assert When(cond, blank, v) == v;
    }
  }

  /** Printed values start with a visible character that no closing bracket can be taken for. */
  lemma RenderedHead(j: Json, depth: nat, fmt: bool, rest: string)
    requires Printable(j)
    ensures var t := RenderValue(j, depth, fmt, rest); t != "" && t[0] > ' ' && t[0] !in "]},:"
  {
    if j.Number? {
      DecimalHead(j.value.Floor);
    }
  }

  lemma NullReads(rest: string)
    ensures ParseValue("null" + rest) == Ok(Null, rest)
  {
    assert ("null" + rest)[..4] == "null" && ("null" + rest)[4..] == rest;
  }

  lemma FalseReads(rest: string)
    ensures ParseValue("false" + rest) == Ok(False, rest)
  {
    var t := "false" + rest;
    assert t[0] == 'f' && t[..5] == "false" && t[5..] == rest;
  }

  lemma NumberReads(n: int, rest: string)
    requires EndsNumber(rest)
    ensures ParseValue(Decimal(n) + rest) == Ok(Number(n as real), rest)
  {
    DecimalHead(n);
    NumberRoundTrip(n, rest);
  }

  lemma StringReads(s: string, rest: string)
    requires NulFree(s)
    ensures ParseValue(RenderString(s, rest)) == Ok(String(s), rest)
  {
    StringRoundTrip(s, rest);
  }

  lemma TrueReads(rest: string)
    ensures ParseValue("true" + rest) == Ok(True, rest)
  {
    var t := "true" + rest;
    assert t[0] == 't' && t[..4] == "true" && t[4..] == rest;
  }

  lemma ScalarRoundTrip(j: Json, depth: nat, fmt: bool, rest: string)
    requires Printable(j) && EndsNumber(rest) && !j.Array? && !j.Object?
    ensures ParseValue(RenderValue(j, depth, fmt, rest)) == Ok(j, rest)
  {
    match j
    case Null => NullReads(rest);
    case False => FalseReads(rest);
    case True => TrueReads(rest);
    case Number(x) => NumberReads(x.Floor, rest);
    case String(s) => StringReads(s, rest);
  }

  lemma {:induction false} ValueRoundTrip(j: Json, depth: nat, fmt: bool, rest: string)
    requires Printable(j) && EndsNumber(rest)
    ensures ParseValue(RenderValue(j, depth, fmt, rest)) == Ok(j, rest)
    decreases j, 0
  {
    match j
    case Array(items) => ArrayRoundTrip(items, depth, fmt, rest);
    case Object(members) => ObjectRoundTrip(members, depth, fmt, rest);
    case _ => ScalarRoundTrip(j, depth, fmt, rest);
  }

  /** parse_array on an opening bracket, given what its loop returns. */
  lemma ArrayStep(v: string)
    requires Head(v) == '['
    ensures var v1 := Skip(v[1..]);
      && (Head(v1) == ']' ==> ParseValue(v) == Ok(Array(NoItem), v1[1..]))
      && (Head(v1) != ']' && ParseItems(v1).Ok? ==>
          ParseValue(v) == Ok(Array(ParseItems(v1).value), ParseItems(v1).rest))
  {
  }

  lemma ObjectStep(v: string)
    requires Head(v) == '{'
    ensures var v1 := Skip(v[1..]);
      && (Head(v1) == '}' ==> ParseValue(v) == Ok(Object(NoMember), v1[1..]))
      && (Head(v1) != '}' && ParseMembers(v1).Ok? ==>
          ParseValue(v) == Ok(Object(ParseMembers(v1).value), ParseMembers(v1).rest))
  {
  }

  /** One round of the loop of parse_array, given what its calls return. */
  lemma ItemsStep(v: string, j: Json, v1: string)
    requires ParseValue(Skip(v)) == Ok(j, v1)
    ensures Head(Skip(v1)) == ']' ==> ParseItems(v) == Ok(Item(j, NoItem), Skip(v1)[1..])
    ensures Head(Skip(v1)) == ',' && ParseItems(Skip(v1)[1..]).Ok? ==>
      var r := ParseItems(Skip(v1)[1..]); ParseItems(v) == Ok(Item(j, r.value), r.rest)
  {
  }

  /** One round of the loop of parse_object, given what its calls return. */
  lemma MembersStep(v: string, key: string, v1: string, j: Json, v3: string)
    requires ParseString(Skip(v)) == Ok(key, v1)
    requires Head(Skip(v1)) == ':'
    requires ParseValue(Skip(Skip(v1)[1..])) == Ok(j, v3)
    ensures Head(Skip(v3)) == '}' ==> ParseMembers(v) == Ok(Member(key, j, NoMember), Skip(v3)[1..])
    ensures Head(Skip(v3)) == ',' && ParseMembers(Skip(v3)[1..]).Ok? ==>
      var r := ParseMembers(Skip(v3)[1..]); ParseMembers(v) == Ok(Member(key, j, r.value), r.rest)
  {
  }

  lemma {:induction false} ArrayRoundTrip(items: Items, depth: nat, fmt: bool, rest: string)
    requires PrintableItems(items)
    ensures ParseValue(RenderValue(Array(items), depth, fmt, rest)) == Ok(Array(items), rest)
    decreases items, 2
  {
    ArrayStep(RenderValue(Array(items), depth, fmt, rest));
    if items.Item? {
      RenderedHead(items.value, depth + 1, fmt, AfterItem(items.next, depth + 1, fmt, "]" + rest));
      ItemsRoundTrip(items, depth + 1, fmt, "]" + rest, rest);
    }
  }

  lemma {:induction false} ObjectRoundTrip(members: Members, depth: nat, fmt: bool, rest: string)
    requires PrintableMembers(members)
    ensures ParseValue(RenderValue(Object(members), depth, fmt, rest)) == Ok(Object(members), rest)
    decreases members, 2
  {
    ObjectStep(RenderValue(Object(members), depth, fmt, rest));
    if members.NoMember? {
      TabsAreTabs(depth - 1);
      WhenSkip(fmt, "\n" + Tabs(depth - 1), "}" + rest);
    } else {
      var close := When(fmt, Tabs(depth), "}" + rest);
      TabsAreTabs(depth);
      WhenSkip(fmt, Tabs(depth), "}" + rest);
      var body := RenderMembers(members, depth + 1, fmt, close);
      WhenSkip(fmt, "\n", body);
      MembersRoundTrip(members, depth + 1, fmt, close, Skip(body), rest);
    }
  }

  lemma {:induction false} ItemsRoundTrip(items: Items, depth: nat, fmt: bool, close: string, rest: string)
    requires items.Item? && PrintableItems(items)
    requires close == "]" + rest
    ensures forall v | Skip(v) == RenderItems(items, depth, fmt, close) :: ParseItems(v) == Ok(items, rest)
    decreases items, 1
  {
    var Item(j, next) := items;
    var tail := AfterItem(next, depth, fmt, close);
    ValueRoundTrip(j, depth, fmt, tail);
    if next.Item? {
      var body := RenderItems(next, depth, fmt, close);
      WhenSkip(fmt, " ", body);
      RenderedHead(next.value, depth, fmt, AfterItem(next.next, depth, fmt, close));
      ItemsRoundTrip(next, depth, fmt, close, rest);
    }
    forall v | Skip(v) == RenderItems(items, depth, fmt, close)
      ensures ParseItems(v) == Ok(items, rest)
    {
      ItemsStep(v, j, tail);
    }
  }

  lemma {:induction false} MembersRoundTrip(members: Members, depth: nat, fmt: bool, close: string, v: string, rest: string)
    requires members.Member? && PrintableMembers(members)
    requires Skip(close) == "}" + rest
    requires Skip(v) == Skip(RenderMembers(members, depth, fmt, close))
    ensures ParseMembers(v) == Ok(members, rest)
    ensures Head(Skip(v)) == '\"'
    decreases members, 1
  {
    var Member(key, j, next) := members;
    var onward := When(fmt, "\n", RenderMembers(next, depth, fmt, close));
    var tail := AfterMember(next, depth, fmt, close);
    var valued := When(fmt, "\t", RenderValue(j, depth, fmt, tail));
    TabsAreTabs(depth);
    WhenSkip(fmt, Tabs(depth), RenderString(key, ":" + valued));
    StringRoundTrip(key, ":" + valued);
    WhenSkip(fmt, "\t", RenderValue(j, depth, fmt, tail));
    RenderedHead(j, depth, fmt, tail);
    ValueRoundTrip(j, depth, fmt, tail);
    MembersStep(v, key, ":" + valued, j, tail);
    WhenSkip(fmt, "\n", RenderMembers(next, depth, fmt, close));
    if next.Member? {
      MembersRoundTrip(next, depth, fmt, close, onward, rest);
    }
  }

  /** Both printed forms of a tree parse back to it, with the whole text consumed. */
  lemma TextRoundTrip(j: Json, depth: nat, fmt: bool, requireEnd: bool)
    requires Printable(j)
    ensures ParseText(PrintValue(j, depth, fmt), requireEnd) == Ok(j, "")
  {
    RenderedHead(j, depth, fmt, "");
    ValueRoundTrip(j, depth, fmt, "");
  }
}
